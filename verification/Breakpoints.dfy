/** The breakpoint tables of the debugger client, and the bytes and the flag of the server that they mirror. */
module Breakpoints {
  import opened Options

  /** A breakpoint is found by the byte code of its function and its line: a later one on the same line replaces it. */
  datatype Breakpoint = Breakpoint(cp: int, line: int)

  /** A parsed function: its names, how many lines its source has, and the offset of the breakpoint of each line. The
      server has a byte for every offset, also for those that no line leads to any more. */
  datatype Function = Function(
    sourceName: string, name: string, sourceLines: nat, lines: map<int, int>, firstLine: int, offsets: set<int>)

  /** A breakpoint for code that is not parsed yet: a line of a source, or a function. */
  datatype Pending = PendingLine(source: string, line: int) | PendingFunction(name: string)

  type Functions = map<int, Function>
  type LineList = map<int, seq<Breakpoint>>

  predicate WellFormed(f: Function) {
    && f.firstLine in f.lines && (forall l <- f.lines :: f.lines[l] in f.offsets)
    && (forall l, k | l in f.lines && k in f.lines && f.lines[l] == f.lines[k] :: l == k)
  }

  predicate EndsWith(s: string, t: string) {
    |t| <= |s| && s[|s| - |t|..] == t
  }

  predicate SourceMatches(sourceName: string, name: string) {
    sourceName == name || EndsWith(sourceName, "/" + name) || EndsWith(sourceName, "\\" + name)
  }

  lemma EndsWithIs(s: string, t: string)
    ensures EndsWith(s, t) <==> exists directory: string :: s == directory + t
  {
    if EndsWith(s, t) {
      assert s == s[..|s| - |t|] + t;
    }
  }

  /** A source is found by its whole name or by the last part of its path. */
  lemma SourceMatchesIs(sourceName: string, name: string)
    ensures SourceMatches(sourceName, name) <==>
              || sourceName == name
              || (exists directory: string :: sourceName == directory + ("/" + name))
              || (exists directory: string :: sourceName == directory + ("\\" + name))
  {
    hide EndsWith;
    EndsWithIs(sourceName, "/" + name);
    EndsWithIs(sourceName, "\\" + name);
  }

  ghost function BreakpointsOf(functions: Functions): set<Breakpoint> {
    set cp, line | cp in functions && line in functions[cp].lines :: Breakpoint(cp, line)
  }

  predicate Live(b: Breakpoint, functions: Functions) {
    b.cp in functions && b.line in functions[b.cp].lines
  }

  /** Where the byte of a breakpoint is. */
  function Key(b: Breakpoint, functions: Functions): (int, int)
    requires Live(b, functions)
  {
    (b.cp, functions[b.cp].lines[b.line])
  }

  /** The byte belongs to an active breakpoint. */
  ghost predicate Enabled(key: (int, int), active: set<Breakpoint>, functions: Functions) {
    exists b <- active :: Live(b, functions) && Key(b, functions) == key
  }

  lemma KeysDiffer(a: Breakpoint, b: Breakpoint, functions: Functions)
    requires Live(a, functions) && Live(b, functions) && WellFormed(functions[a.cp])
    ensures Key(a, functions) == Key(b, functions) ==> a == b
  {}

  function Offsets(functions: Functions): set<(int, int)> {
    set cp, o | cp in functions && o in functions[cp].offsets :: (cp, o)
  }

  /** The breakpoints that a command or a pending breakpoint stands for. */
  ghost function Matching(target: Pending, functions: Functions): set<Breakpoint> {
    match target
    case PendingLine(source, line) =>
      set b | b in BreakpointsOf(functions) && b.line == line && SourceMatches(functions[b.cp].sourceName, source)
    case PendingFunction(name) =>
      set cp | cp in functions && functions[cp].name == name :: Breakpoint(cp, functions[cp].firstLine)
  }

  /** The side of the server: which breakpoint bytes are enabled, and whether it waits after parsing. */
  class Server {
    var bytes: map<(int, int), bool>
    var parserWait: bool

    constructor (bytes: map<(int, int), bool>)
      requires forall k <- bytes :: !bytes[k]
      ensures this.bytes == bytes && !parserWait
    {
      this.bytes, parserWait := bytes, false;
    }

    /** The message must point to a breakpoint byte. */
    method UpdateBreakpoint(key: (int, int), isSet: bool)
      requires key in bytes
      modifies `bytes
      ensures bytes == old(bytes)[key := isSet]
    {
      bytes := bytes[key := isSet];
    }

    method ParserConfig(wait: bool)
      modifies `parserWait
      ensures parserWait == wait
    {
      parserWait := wait;
    }

    /** New byte code: its breakpoints are disabled. */
    method Compile(functions: Functions)
      requires forall k <- bytes :: k.0 !in functions
      modifies `bytes
      ensures bytes == old(bytes) + map k | k in Offsets(functions) :: false
    {
      bytes := bytes + map k | k in Offsets(functions) :: false;
    }

    /** The client has released byte code: now it is freed. */
    method FreeByteCode(cp: int)
      modifies `bytes
      ensures bytes == map k | k in old(bytes) && k.0 != cp :: old(bytes)[k]
    {
      bytes := map k | k in bytes && k.0 != cp :: bytes[k];
    }
  }

  lemma MoreEnabled(active: set<Breakpoint>, b: Breakpoint, functions: Functions)
    requires Live(b, functions)
    ensures forall k :: Enabled(k, active + {b}, functions) <==> Enabled(k, active, functions) || k == Key(b, functions)
  {
    forall k
      ensures Enabled(k, active + {b}, functions) <==> Enabled(k, active, functions) || k == Key(b, functions)
    {
      assert b in active + {b};
      if Enabled(k, active, functions) {
        var c :| c in active && Live(c, functions) && Key(c, functions) == k;
        assert c in active + {b};
      }
    }
  }

  lemma LessEnabled(active: set<Breakpoint>, b: Breakpoint, functions: Functions)
    requires Live(b, functions) && WellFormed(functions[b.cp])
    ensures forall k :: Enabled(k, active - {b}, functions) <==> Enabled(k, active, functions) && k != Key(b, functions)
  {
    forall k
      ensures Enabled(k, active - {b}, functions) <==> Enabled(k, active, functions) && k != Key(b, functions)
    {
      if Enabled(k, active - {b}, functions) {
        var c :| c in active - {b} && Live(c, functions) && Key(c, functions) == k;
        KeysDiffer(b, c, functions);
        assert c in active;
      }
      if Enabled(k, active, functions) && k != Key(b, functions) {
        var c :| c in active && Live(c, functions) && Key(c, functions) == k;
        assert c in active - {b};
      }
    }
  }

  // ----- The multimap of lines -----

  function Get(list: LineList, line: int): seq<Breakpoint> {
    if line in list then list[line] else []
  }

  function Insert(list: LineList, line: int, b: Breakpoint): LineList {
    list[line := Get(list, line) + [b]]
  }

  function IndexOf(s: seq<Breakpoint>, b: Breakpoint): (i: nat)
    requires b in s
    ensures i < |s| && s[i] == b
  {
    if s[0] == b then 0 else 1 + IndexOf(s[1..], b)
  }

  /** The last item takes its line with it, whatever it is. */
  function Without(list: LineList, line: int, b: Breakpoint): LineList
    requires line in list && b in list[line]
  {
    if |list[line]| == 1 then list - {line}
    else
      var i := IndexOf(list[line], b);
      list[line := list[line][..i] + list[line][i + 1..]]
  }

  /** The multimap lists exactly these breakpoints, each once and under its line, and has no empty line. */
  ghost predicate Lists(list: LineList, all: set<Breakpoint>) {
    && (forall b: Breakpoint, line: int :: b in Get(list, line) <==> b in all && b.line == line)
    && (forall line <- list :: list[line] != [] && NoDuplicates(list[line]))
  }

  lemma InsertLists(list: LineList, all: set<Breakpoint>, b: Breakpoint)
    requires Lists(list, all) && b !in all
    ensures Lists(Insert(list, b.line, b), all + {b})
  {
    var more := Insert(list, b.line, b);
    assert b !in Get(list, b.line);
    forall c: Breakpoint, line: int
      ensures c in Get(more, line) <==> c in all + {b} && c.line == line
    {
      assert c in Get(list, line) <==> c in all && c.line == line;
    }
  }

  /** Taking out one of several distinct items. */
  lemma WithoutOne(items: seq<Breakpoint>, b: Breakpoint)
    requires NoDuplicates(items) && b in items
    ensures var i := IndexOf(items, b); var less := items[..i] + items[i + 1..];
            NoDuplicates(less) && (forall c :: c in less <==> c in items && c != b) && (less == [] <==> |items| == 1)
  {
    var i := IndexOf(items, b);
    var less := items[..i] + items[i + 1..];
    assert forall j | 0 <= j < |less| :: less[j] == items[if j < i then j else j + 1];
    forall c
      ensures c in less <==> c in items && c != b
    {
      if c in items && c != b {
        var j :| 0 <= j < |items| && items[j] == c;
        assert c == less[if j < i then j else j - 1];
      }
    }
  }

  lemma DeleteLists(list: LineList, all: set<Breakpoint>, b: Breakpoint)
    requires Lists(list, all) && b in all
    ensures b.line in list && b in list[b.line] && Lists(Without(list, b.line, b), all - {b})
  {
    hide NoDuplicates;
    assert b in Get(list, b.line);
    WithoutOne(list[b.line], b);
    var less := Without(list, b.line, b);
    OnlyOne(list[b.line], b);
    forall c: Breakpoint, line: int
      ensures c in Get(less, line) <==> c in all - {b} && c.line == line
    {
      assert c in Get(list, line) <==> c in all && c.line == line;
    }
  }

  lemma OnlyOne(items: seq<Breakpoint>, b: Breakpoint)
    requires b in items
    ensures |items| == 1 ==> forall c :: c in items <==> c == b
  {}

  // ----- The agreement of the tables -----

  /** active_breakpoint_list[i].active_index == i, every active breakpoint is in the list, and no number is used twice. */
  ghost predicate Numbered(list: map<int, Breakpoint>, index: map<Breakpoint, int>, pending: map<int, Pending>, next: nat) {
    && (forall i <- list :: list[i] in index && index[list[i]] == i)
    && (forall b <- index :: index[b] in list && list[index[b]] == b)
    && (forall i <- list :: 0 < i <= next) && (forall i <- pending :: 0 < i <= next)
    && (forall i <- list :: i !in pending)
    && (forall i, j | i in pending && j in pending && pending[i] == pending[j] :: i == j)
  }

  /** A breakpoint that has a number keeps it, and a new one gets a number that was not given before. */
  ghost predicate KeepsNumbers(index0: map<Breakpoint, int>, next0: nat, index: map<Breakpoint, int>, next: nat) {
    && next0 <= next
    && (forall b <- index0 :: b in index && index[b] == index0[b])
    && (forall b <- index :: b !in index0 ==> next0 < index[b] <= next)
  }

  lemma KeepsSame(index: map<Breakpoint, int>, next: nat)
    ensures KeepsNumbers(index, next, index, next) && KeepsNumbers(index, next, index, next + 1)
  {}

  lemma KeepsTwice(index0: map<Breakpoint, int>, next0: nat, index1: map<Breakpoint, int>, next1: nat,
                   index2: map<Breakpoint, int>, next2: nat)
    requires KeepsNumbers(index0, next0, index1, next1) && KeepsNumbers(index1, next1, index2, next2)
    ensures KeepsNumbers(index0, next0, index2, next2)
  {}

  /** The breakpoints of the pending ones that are no longer pending. */
  ghost function Satisfied(before: map<int, Pending>, now: map<int, Pending>, functions: Functions): set<Breakpoint> {
    set i, b | i in before && i !in now && b in Matching(before[i], functions) :: b
  }

  /** Pending breakpoints leave the list only with breakpoints that became active, and no others became active. */
  ghost predicate Settled(before: map<int, Pending>, now: map<int, Pending>, functions: Functions,
                          active0: set<Breakpoint>, active: set<Breakpoint>)
  {
    && (forall i <- now :: i in before && now[i] == before[i])
    && active == active0 + Satisfied(before, now, functions)
    && (forall i <- before :: i !in now ==> Matching(before[i], functions) != {})
  }

  lemma NothingSettled(pending: map<int, Pending>, functions: Functions, active: set<Breakpoint>)
    ensures Settled(pending, pending, functions, active, active)
  {
    assert Satisfied(pending, pending, functions) == {};
  }

  lemma SettledNext(before: map<int, Pending>, now: map<int, Pending>, next: map<int, Pending>, functions: Functions,
                    active0: set<Breakpoint>, active: set<Breakpoint>, active2: set<Breakpoint>, i: int)
    requires Settled(before, now, functions, active0, active) && i in now && (next == now || next == now - {i})
    requires active2 == active + if i in next then {} else Matching(now[i], functions)
    requires i !in next ==> Matching(now[i], functions) != {}
    ensures Settled(before, next, functions, active0, active2)
  {
    hide Matching, Satisfied;
    if i !in next {
      OneSatisfied(before, now, functions, i);
    }
  }

  lemma OneSatisfied(before: map<int, Pending>, now: map<int, Pending>, functions: Functions, i: int)
    requires i in now && forall j <- now :: j in before && now[j] == before[j]
    ensures Satisfied(before, now - {i}, functions) == Satisfied(before, now, functions) + Matching(now[i], functions)
  {
    hide Matching;
    var less := now - {i};
    forall b
      ensures b in Satisfied(before, less, functions) <==> b in Satisfied(before, now, functions) || b in Matching(now[i], functions)
    {
      if b in Satisfied(before, less, functions) {
        var j :| j in before && j !in less && b in Matching(before[j], functions);
        assert j == i || j !in now;
      }
      if b in Satisfied(before, now, functions) {
        var j :| j in before && j !in now && b in Matching(before[j], functions);
        assert j !in less;
      }
    }
  }

  lemma NumberOne(list: map<int, Breakpoint>, index: map<Breakpoint, int>, pending: map<int, Pending>, next: nat, b: Breakpoint)
    requires Numbered(list, index, pending, next) && b !in index
    ensures Numbered(list[next + 1 := b], index[b := next + 1], pending, next + 1)
  {}

  lemma UnnumberOne(list: map<int, Breakpoint>, index: map<Breakpoint, int>, pending: map<int, Pending>, next: nat, i: int)
    requires Numbered(list, index, pending, next) && i in list
    ensures Numbered(list - {i}, index - {list[i]}, pending, next)
  {}

  ghost predicate AllLive(active: set<Breakpoint>, functions: Functions) {
    && (forall cp <- functions :: WellFormed(functions[cp]))
    && (forall b <- active :: Live(b, functions))
  }

  /** A byte of the server is enabled exactly when the breakpoint it belongs to is active. */
  ghost predicate BytesAgree(bytes: map<(int, int), bool>, active: set<Breakpoint>, functions: Functions) {
    && (forall b: Breakpoint | Live(b, functions) :: Key(b, functions) in bytes)
    && (forall k <- bytes :: bytes[k] <==> Enabled(k, active, functions))
  }

  lemma ByteOn(bytes: map<(int, int), bool>, active: set<Breakpoint>, functions: Functions, b: Breakpoint)
    requires BytesAgree(bytes, active, functions) && Live(b, functions)
    ensures Key(b, functions) in bytes && BytesAgree(bytes[Key(b, functions) := true], active + {b}, functions)
  {
    hide Enabled;
    MoreEnabled(active, b, functions);
  }

  lemma ByteOff(bytes: map<(int, int), bool>, active: set<Breakpoint>, functions: Functions, b: Breakpoint)
    requires BytesAgree(bytes, active, functions) && Live(b, functions) && WellFormed(functions[b.cp])
    ensures Key(b, functions) in bytes && BytesAgree(bytes[Key(b, functions) := false], active - {b}, functions)
  {
    hide Enabled;
    LessEnabled(active, b, functions);
  }

  class Debugger {
    const server: Server
    var functionList: Functions
    var nextIndex: nat
    /** The listed breakpoints by number, and the number that each active breakpoint object holds. */
    var activeList: map<int, Breakpoint>
    var activeIndex: map<Breakpoint, int>
    var pendingList: map<int, Pending>
    var lineList: LineList

    constructor (server: Server)
      requires (forall k <- server.bytes :: !server.bytes[k]) && !server.parserWait
      ensures this.server == server && Mirrors() && functionList == map[] && activeIndex == map[] && pendingList == map[]
    {
      this.server := server;
      functionList, nextIndex, activeList, activeIndex, pendingList, lineList := map[], 0, map[], map[], map[], map[];
    }

    /** The tables agree with each other and with the bytes of the server. */
    ghost predicate Agree()
      reads this, server`bytes
    {
      && Numbered(activeList, activeIndex, pendingList, nextIndex) && AllLive(activeIndex.Keys, functionList)
      && BytesAgree(server.bytes, activeIndex.Keys, functionList)
      && Lists(lineList, BreakpointsOf(functionList))
    }

    /** And the server waits after parsing exactly while a breakpoint is pending. */
    ghost predicate Mirrors()
      reads this, server
    {
      Agree() && (server.parserWait <==> pendingList != map[])
    }

    /** _enable_breakpoint of a breakpoint in parsed code. */
    method EnableBreakpoint(b: Breakpoint)
      requires Agree() && Live(b, functionList)
      modifies `nextIndex, `activeList, `activeIndex, server`bytes
      ensures Agree() && activeIndex.Keys == old(activeIndex.Keys) + {b}
      ensures activeIndex == if old(b in activeIndex) then old(activeIndex) else old(activeIndex)[b := old(nextIndex) + 1]
      ensures KeepsNumbers(old(activeIndex), old(nextIndex), activeIndex, nextIndex)
    {
      hide Numbered, BytesAgree, Lists;
      if b !in activeIndex {
        NumberOne(activeList, activeIndex, pendingList, nextIndex, b);
        ByteOn(server.bytes, activeIndex.Keys, functionList, b);
        nextIndex := nextIndex + 1;
        activeList := activeList[nextIndex := b];
        activeIndex := activeIndex[b := nextIndex];
        server.UpdateBreakpoint(Key(b, functionList), true);
        assert activeIndex.Keys == old(activeIndex.Keys) + {b};
      }
    }

    /** What delete does to one active breakpoint. */
    method DisableBreakpoint(i: int)
      requires Mirrors() && i in activeList
      modifies `activeList, `activeIndex, server`bytes
      ensures Mirrors() && activeList == old(activeList) - {i}
      ensures activeIndex == old(activeIndex) - {old(activeList[i])}
    {
      hide BytesAgree, Lists;
      var b := activeList[i];
      UnnumberOne(activeList, activeIndex, pendingList, nextIndex, i);
      ByteOff(server.bytes, activeIndex.Keys, functionList, b);
      activeList := activeList - {i};
      activeIndex := activeIndex - {b};
      server.UpdateBreakpoint(Key(b, functionList), false);
      assert activeIndex.Keys == old(activeIndex.Keys) - {b};
    }

    /** The search of _set_breakpoint: enables every breakpoint that the target stands for. */
    method EnableMatching(target: Pending) returns (found: bool)
      requires Agree()
      modifies `nextIndex, `activeList, `activeIndex, server`bytes
      ensures Agree() && activeIndex.Keys == old(activeIndex.Keys) + Matching(target, functionList)
      ensures KeepsNumbers(old(activeIndex), old(nextIndex), activeIndex, nextIndex)
      ensures found <==> Matching(target, functionList) != {}
    {
      if target.PendingLine? {
        found := EnableLine(target.source, target.line);
      } else {
        found := EnableFunctions(target.name);
      }
    }

    method EnableLine(source: string, line: int) returns (found: bool)
      requires Agree()
      modifies `nextIndex, `activeList, `activeIndex, server`bytes
      ensures Agree() && activeIndex.Keys == old(activeIndex.Keys) + Matching(PendingLine(source, line), functionList)
      ensures KeepsNumbers(old(activeIndex), old(nextIndex), activeIndex, nextIndex)
      ensures found <==> Matching(PendingLine(source, line), functionList) != {}
    {
      hide Numbered, BytesAgree, SourceMatches, KeepsNumbers, LineDone, Lists, Matching;
      KeepsSame(activeIndex, nextIndex);
      var items := Get(lineList, line);
      found := false;
      ghost var done: set<Breakpoint> := {};
      LineStarts(lineList, functionList, line, source);
      for k := 0 to |items|
        invariant Agree() && activeIndex.Keys == old(activeIndex.Keys) + done && (found <==> done != {})
        invariant KeepsNumbers(old(activeIndex), old(nextIndex), activeIndex, nextIndex)
        invariant LineDone(done, items, k, functionList, source)
      {
        var b := items[k];
        LineNext(done, items, k, functionList, source);
        if SourceMatches(functionList[b.cp].sourceName, source) {
          ghost var index, next := activeIndex, nextIndex;
          EnableBreakpoint(b);
          KeepsTwice(old(activeIndex), old(nextIndex), index, next, activeIndex, nextIndex);
          done := done + {b};
          found := true;
        }
      }
      LineEnds(done, lineList, functionList, line, source);
    }

    method EnableFunctions(name: string) returns (found: bool)
      requires Agree()
      modifies `nextIndex, `activeList, `activeIndex, server`bytes
      ensures Agree() && activeIndex.Keys == old(activeIndex.Keys) + Matching(PendingFunction(name), functionList)
      ensures KeepsNumbers(old(activeIndex), old(nextIndex), activeIndex, nextIndex)
      ensures found <==> Matching(PendingFunction(name), functionList) != {}
    {
      hide *;
      var left := functionList.Keys;
      found := false;
      ghost var seen: set<int> := {};
      ghost var active := activeIndex.Keys;
      NothingSeen(name, functionList, active);
      KeepsSame(activeIndex, nextIndex);
      while left != {}
        invariant Agree() && Progress(name, functionList, left, seen, active, activeIndex.Keys, found)
        invariant KeepsNumbers(old(activeIndex), old(nextIndex), activeIndex, nextIndex)
        decreases |left|
      {
        HasElement(left);
        var cp :| cp in left;
        SeeOne(name, functionList, left, seen, active, activeIndex.Keys, found, cp);
        ghost var index, next := activeIndex, nextIndex;
        var hit := EnableStart(cp, name);
        KeepsTwice(old(activeIndex), old(nextIndex), index, next, activeIndex, nextIndex);
        left := left - {cp};
        seen := seen + {cp};
        found := found || hit;
      }
      AllSeen(name, functionList, seen, active, activeIndex.Keys, found);
    }

    method EnableStart(cp: int, name: string) returns (hit: bool)
      requires Agree() && cp in functionList
      modifies `nextIndex, `activeList, `activeIndex, server`bytes
      ensures Agree() && (hit <==> HasName(cp, name, functionList))
      ensures activeIndex.Keys == old(activeIndex.Keys) + if hit then {Breakpoint(cp, functionList[cp].firstLine)} else {}
      ensures KeepsNumbers(old(activeIndex), old(nextIndex), activeIndex, nextIndex)
    {
      hide Numbered, BytesAgree, Lists;
      hit := functionList[cp].name == name;
      if hit {
        EnableBreakpoint(Breakpoint(cp, functionList[cp].firstLine));
      }
    }

    /** _set_breakpoint of a command. When nothing is found the user may add a pending breakpoint. */
    method SetBreakpoint(target: Pending, answer: bool) returns (found: bool)
      requires Mirrors()
      modifies `nextIndex, `activeList, `activeIndex, `pendingList, server
      ensures Mirrors() && (found <==> Matching(target, functionList) != {})
      ensures activeIndex.Keys == old(activeIndex.Keys) + Matching(target, functionList)
      ensures KeepsNumbers(old(activeIndex), old(nextIndex), activeIndex, nextIndex)
      ensures pendingList.Values == old(pendingList.Values) + if !found && answer then {target} else {}
      ensures forall i <- old(pendingList) :: i in pendingList && pendingList[i] == old(pendingList)[i]
    {
      found := EnableMatching(target);
      if !found && answer {
        if pendingList == map[] {
          server.ParserConfig(true);
        }
        AddPending(target);
      }
    }

    /** _enable_breakpoint of a pending breakpoint: an equal one is not added again. */
    method AddPending(target: Pending)
      requires Agree()
      modifies `nextIndex, `pendingList
      ensures old(nextIndex) <= nextIndex <= old(nextIndex) + 1
      ensures Agree() && pendingList.Values == old(pendingList.Values) + {target}
      ensures forall i <- old(pendingList) :: i in pendingList && pendingList[i] == old(pendingList)[i]
    {
      hide BytesAgree, Lists, AllLive;
      if target !in pendingList.Values {
        nextIndex := nextIndex + 1;
        pendingList := pendingList[nextIndex := target];
        AddedValue(old(pendingList), nextIndex, target);
      }
    }

    method ClearPending()
      requires Mirrors()
      modifies `pendingList, server`parserWait
      ensures Mirrors() && pendingList == map[]
    {
      if pendingList != map[] {
        pendingList := map[];
        server.ParserConfig(false);
      }
    }

    /** delete all, delete active and delete pending. */
    method DeleteAll(active: bool, pending: bool)
      requires Mirrors()
      modifies `activeList, `activeIndex, `pendingList, server
      ensures Mirrors()
      ensures activeList == if active then map[] else old(activeList)
      ensures pendingList == if pending then map[] else old(pendingList)
    {
      hide Numbered, BytesAgree, Lists, AllLive;
      if active {
        var left := activeList.Keys;
        while left != {}
          invariant Mirrors() && left == activeList.Keys && pendingList == old(pendingList)
          decreases |left|
        {
          HasElement(left);
          var i :| i in left;
          DisableBreakpoint(i);
          left := left - {i};
        }
        NoKeys(activeList);
      }
      if pending {
        ClearPending();
      }
    }

    /** delete with a number: an active breakpoint, a pending one, or none. */
    method Delete(i: int) returns (found: bool)
      requires Mirrors()
      modifies `activeList, `activeIndex, `pendingList, server
      ensures Mirrors() && (found <==> i in old(activeList) || i in old(pendingList))
      ensures activeList == old(activeList) - {i} && pendingList == old(pendingList) - {i}
    {
      NumbersDiffer(activeList, activeIndex, pendingList, nextIndex, i);
      hide BytesAgree, Lists, AllLive;
      if i in activeList {
        DisableBreakpoint(i);
        return true;
      }
      if i in pendingList {
        pendingList := pendingList - {i};
        if pendingList == map[] {
          server.ParserConfig(false);
        }
        return true;
      }
      found := false;
    }

    /** One line of a released function: it leaves the lines and, if its breakpoint is active, the list. */
    method ReleaseLine(b: Breakpoint, ghost listed: set<Breakpoint>)
      requires Numbered(activeList, activeIndex, pendingList, nextIndex) && Lists(lineList, listed) && b in listed
      modifies `activeList, `activeIndex, `lineList
      ensures Numbered(activeList, activeIndex, pendingList, nextIndex) && Lists(lineList, listed - {b})
      ensures activeIndex.Keys == old(activeIndex.Keys) - {b} && forall c <- activeIndex :: activeIndex[c] == old(activeIndex)[c]
    {
      DeleteLists(lineList, listed, b);
      hide Lists;
      lineList := Without(lineList, b.line, b);
      if b in activeIndex {
        UnnumberOne(activeList, activeIndex, pendingList, nextIndex, activeIndex[b]);
        activeList := activeList - {activeIndex[b]};
        activeIndex := activeIndex - {b};
      }
    }

    /** _release_function. An unknown function is an exception. */
    method ReleaseFunction(cp: int) returns (ok: bool)
      requires Mirrors()
      modifies `functionList, `activeList, `activeIndex, `lineList, server
      ensures Mirrors() && (ok <==> cp in old(functionList)) && functionList == old(functionList) - {cp}
      ensures activeIndex.Keys == set b | b in old(activeIndex.Keys) && b.cp != cp
      ensures forall b <- activeIndex :: activeIndex[b] == old(activeIndex)[b]
      ensures ok ==> server.bytes == map k | k in old(server.bytes) && k.0 != cp :: old(server.bytes)[k]
    {
      hide Numbered, Lists, BytesAgree, AllLive, BreakpointsOf, LinesOf, WellFormed, Enabled;
      if cp !in functionList {
        NotThere(functionList, activeIndex.Keys, cp);
        return false;
      }
      ghost var active := activeIndex.Keys;
      ReleaseLines(cp);
      Released(functionList, cp, server.bytes, active);
      functionList := functionList - {cp};
      server.FreeByteCode(cp);
      ok := true;
    }

    /** The loop over the lines of a released function. */
    method ReleaseLines(cp: int)
      requires Mirrors() && cp in functionList
      modifies `activeList, `activeIndex, `lineList
      ensures Numbered(activeList, activeIndex, pendingList, nextIndex)
      ensures Lists(lineList, BreakpointsOf(functionList) - LinesOf(cp, functionList[cp].lines.Keys))
      ensures activeIndex.Keys == old(activeIndex.Keys) - LinesOf(cp, functionList[cp].lines.Keys)
      ensures forall b <- activeIndex :: activeIndex[b] == old(activeIndex)[b]
    {
      hide Numbered, Lists, BytesAgree, AllLive, BreakpointsOf, LinesOf;
      ghost var all, active := BreakpointsOf(functionList), activeIndex.Keys;
      var left := functionList[cp].lines.Keys;
      ghost var seen: set<int> := {};
      LinesStart(functionList, cp, active);
      while left != {}
        invariant left <= functionList[cp].lines.Keys && seen == functionList[cp].lines.Keys - left
        invariant Numbered(activeList, activeIndex, pendingList, nextIndex)
        invariant Lists(lineList, all - LinesOf(cp, seen)) && activeIndex.Keys == active - LinesOf(cp, seen)
        invariant forall b <- activeIndex :: b in active && activeIndex[b] == old(activeIndex)[b]
        decreases |left|
      {
        HasElement(left);
        var line :| line in left;
        LinesStep(functionList, cp, seen, line, active);
        ReleaseLine(Breakpoint(cp, line), all - LinesOf(cp, seen));
        left := left - {line};
        seen := seen + {line};
      }
      assert seen == functionList[cp].lines.Keys;
    }

    /** The lines of a new function enter the multimap. */
    method InsertLines(cp: int, f: Function, ghost listed: set<Breakpoint>)
      requires Lists(lineList, listed) && forall b <- listed :: b.cp != cp
      modifies `lineList
      ensures Lists(lineList, listed + LinesOf(cp, f.lines.Keys))
    {
      hide Lists;
      var left := f.lines.Keys;
      ghost var seen: set<int> := {};
      assert listed + LinesOf(cp, {}) == listed;
      while left != {}
        invariant left <= f.lines.Keys && seen == f.lines.Keys - left
        invariant Lists(lineList, listed + LinesOf(cp, seen))
        decreases |left|
      {
        HasElement(left);
        var line :| line in left;
        AddLine(listed, cp, seen, line);
        InsertLists(lineList, listed + LinesOf(cp, seen), Breakpoint(cp, line));
        lineList := Insert(lineList, line, Breakpoint(cp, line));
        left := left - {line};
        seen := seen + {line};
      }
      assert seen == f.lines.Keys;
    }

    /** The new functions of a completed parse enter the tables. */
    method AddFunctions(parsed: Functions)
      requires Agree() && parsed.Keys !! functionList.Keys && (forall cp <- parsed :: WellFormed(parsed[cp]))
      requires forall k <- server.bytes :: k.0 in parsed ==> !server.bytes[k]
      requires forall k <- Offsets(parsed) :: k in server.bytes
      modifies `functionList, `lineList
      ensures Agree() && functionList == old(functionList) + parsed
    {
      hide Numbered, Lists, BytesAgree, AllLive, BreakpointsOf, WellFormed, Offsets;
      ghost var all := BreakpointsOf(functionList);
      ghost var listed := all;
      NewCode(functionList, parsed, server.bytes, activeIndex.Keys);
      var left := parsed.Keys;
      AddedNone(functionList, parsed);
      while left != {}
        invariant left <= parsed.Keys && Lists(lineList, listed)
        invariant Added(listed, functionList, parsed, left)
        modifies `lineList
        decreases |left|
      {
        HasElement(left);
        var cp :| cp in left;
        AddedOne(listed, functionList, parsed, left, cp);
        InsertLines(cp, parsed[cp], listed);
        listed := listed + LinesOf(cp, parsed[cp].lines.Keys);
        left := left - {cp};
      }
      AddedAll(listed, functionList, parsed);
      functionList := functionList + parsed;
    }

    /** The end of _parse_source: new functions, and the pending breakpoints that they make possible. */
    method ParseCompleted(parsed: Functions)
      requires Mirrors() && parsed.Keys !! functionList.Keys && (forall cp <- parsed :: WellFormed(parsed[cp]))
      requires forall k <- server.bytes :: k.0 in parsed ==> !server.bytes[k]
      requires forall k <- Offsets(parsed) :: k in server.bytes
      modifies this, server
      ensures Mirrors() && functionList == old(functionList) + parsed
      ensures Settled(old(pendingList), pendingList, functionList, old(activeIndex.Keys), activeIndex.Keys)
      ensures KeepsNumbers(old(activeIndex), old(nextIndex), activeIndex, nextIndex)
      ensures forall i <- pendingList :: Reachable(pendingList[i], parsed) ==> Matching(pendingList[i], functionList) == {}
      ensures forall i <- old(pendingList) :: i !in pendingList ==> Possible(old(pendingList)[i], parsed)
    {
      hide Matching, Numbered, Lists, BytesAgree, AllLive, BreakpointsOf, Reachable, Possible, Offsets, KeepsNumbers, Settled;
      KeepsSame(activeIndex, nextIndex);
      AddFunctions(parsed);
      NothingSettled(pendingList, functionList, activeIndex.Keys);
      if pendingList != map[] {
        SetPending(parsed);
        if pendingList == map[] {
          server.ParserConfig(false);
        }
      }
    }

    method SetPending(parsed: Functions)
      requires Agree()
      modifies `nextIndex, `activeList, `activeIndex, `pendingList, server`bytes
      ensures Agree() && Settled(old(pendingList), pendingList, functionList, old(activeIndex.Keys), activeIndex.Keys)
      ensures KeepsNumbers(old(activeIndex), old(nextIndex), activeIndex, nextIndex)
      ensures forall i <- pendingList :: Reachable(pendingList[i], parsed) ==> Matching(pendingList[i], functionList) == {}
      ensures forall i <- old(pendingList) :: i !in pendingList ==> Possible(old(pendingList)[i], parsed)
    {
      hide Matching, Numbered, Lists, BytesAgree, AllLive, BreakpointsOf, Reachable, Possible, KeepsNumbers, Settled;
      KeepsSame(activeIndex, nextIndex);
      NothingSettled(pendingList, functionList, activeIndex.Keys);
      var left := pendingList.Keys;
      while left != {}
        invariant Agree() && left <= pendingList.Keys
        invariant Settled(old(pendingList), pendingList, functionList, old(activeIndex.Keys), activeIndex.Keys)
        invariant KeepsNumbers(old(activeIndex), old(nextIndex), activeIndex, nextIndex)
        invariant forall i <- pendingList :: i !in left && Reachable(pendingList[i], parsed) ==>
                    Matching(pendingList[i], functionList) == {}
        invariant forall i <- pendingList :: i in old(pendingList) && pendingList[i] == old(pendingList)[i]
        invariant forall i <- old(pendingList) :: i !in pendingList ==> Possible(old(pendingList)[i], parsed)
        decreases |left|
      {
        HasElement(left);
        var i :| i in left;
        left := left - {i};
        ghost var index, next, pending := activeIndex, nextIndex, pendingList;
        TryPending(i, parsed);
        KeepsTwice(old(activeIndex), old(nextIndex), index, next, activeIndex, nextIndex);
        SettledNext(old(pendingList), pending, pendingList, functionList, old(activeIndex.Keys), index.Keys, activeIndex.Keys, i);
      }
    }

    /** Tries to set one pending breakpoint: it stays if nothing was found for it. */
    method TryPending(i: int, parsed: Functions)
      requires Agree() && i in pendingList
      modifies `nextIndex, `activeList, `activeIndex, `pendingList, server`bytes
      ensures Agree()
      ensures activeIndex.Keys == old(activeIndex.Keys) + if i in pendingList then {} else Matching(old(pendingList)[i], functionList)
      ensures KeepsNumbers(old(activeIndex), old(nextIndex), activeIndex, nextIndex)
      ensures pendingList == old(pendingList) || pendingList == old(pendingList) - {i}
      ensures i !in pendingList ==> Matching(old(pendingList)[i], functionList) != {} && Possible(old(pendingList)[i], parsed)
      ensures i in pendingList && Reachable(pendingList[i], parsed) ==> Matching(pendingList[i], functionList) == {}
    {
      hide Matching, Numbered, Lists, BytesAgree, AllLive, BreakpointsOf, Reachable, Possible, KeepsNumbers;
      KeepsSame(activeIndex, nextIndex);
      var target := pendingList[i];
      var tried := Tried(target, parsed);
      if tried {
        var found := EnableMatching(target);
        if found {
          RemovePending(i);
        }
      }
    }

    method RemovePending(i: int)
      requires Agree() && i in pendingList
      modifies `pendingList
      ensures Agree() && pendingList == old(pendingList) - {i}
    {
      hide BytesAgree, Lists, AllLive;
      pendingList := pendingList - {i};
    }
  }

  // ----- The breakpoints of a line -----

  /** The matching ones of the first k breakpoints. */
  ghost predicate LineDone(done: set<Breakpoint>, items: seq<Breakpoint>, k: nat, functions: Functions, source: string) {
    && k <= |items| && (forall b <- items :: Live(b, functions))
    && (forall b :: b in done <==> b in items[..k] && Live(b, functions) && SourceMatches(functions[b.cp].sourceName, source))
  }

  lemma LineStarts(list: LineList, functions: Functions, line: int, source: string)
    requires Lists(list, BreakpointsOf(functions))
    ensures LineDone({}, Get(list, line), 0, functions, source)
  {
    hide SourceMatches;
    ListedAreLive(list, functions, line);
  }

  lemma LineNext(done: set<Breakpoint>, items: seq<Breakpoint>, k: nat, functions: Functions, source: string)
    requires k < |items| && LineDone(done, items, k, functions, source)
    ensures Live(items[k], functions) && done + {items[k]} != {}
    ensures LineDone(if SourceMatches(functions[items[k].cp].sourceName, source) then done + {items[k]} else done,
                     items, k + 1, functions, source)
  {
    hide SourceMatches;
    assert items[k] in items && items[k] in done + {items[k]};
    assert items[..k + 1] == items[..k] + [items[k]];
  }

  lemma LineEnds(done: set<Breakpoint>, list: LineList, functions: Functions, line: int, source: string)
    requires Lists(list, BreakpointsOf(functions)) && LineDone(done, Get(list, line), |Get(list, line)|, functions, source)
    ensures done == Matching(PendingLine(source, line), functions)
  {
    hide SourceMatches;
    var items := Get(list, line);
    assert items[..|items|] == items;
    ListedAreLive(list, functions, line);
    forall b
      ensures b in done <==> b in Matching(PendingLine(source, line), functions)
    {
      assert b in items <==> b in BreakpointsOf(functions) && b.line == line;
    }
  }

  // ----- Whole runs -----

  /** What the user does, and what the server reports. */
  datatype Event =
    | SetCommand(target: Pending, answer: bool)
    | DeleteCommand(index: int)
    | DeleteAllCommand(active: bool, pending: bool)
    | Parsed(functions: Functions)
    | Release(cp: int)

  /** The server compiles a function into memory that no live byte code occupies. */
  predicate Fresh(functions: Functions, known: Functions, bytes: map<(int, int), bool>) {
    && (forall cp <- functions :: cp !in known && WellFormed(functions[cp]))
    && (forall k <- bytes :: k.0 !in functions)
  }

  /** After any sequence of commands, parses and releases the client's tables mirror the server. */
  method Run(d: Debugger, events: seq<Event>)
    requires d.Mirrors()
    modifies d, d.server
    ensures d.Mirrors()
  {
    hide Numbered, Lists, BytesAgree, AllLive, BreakpointsOf, Matching, WellFormed, Offsets;
    for i := 0 to |events|
      invariant d.Mirrors()
    {
      match events[i] {
        case SetCommand(target, answer) =>
          var found := d.SetBreakpoint(target, answer);
        case DeleteCommand(index) =>
          var found := d.Delete(index);
        case DeleteAllCommand(active, pending) =>
          d.DeleteAll(active, pending);
        case Parsed(functions) =>
          if Fresh(functions, d.functionList, d.server.bytes) {
            CompiledAgree(d.functionList, functions, d.server.bytes, d.activeIndex.Keys);
            d.server.Compile(functions);
            d.ParseCompleted(functions);
          }
        case Release(cp) =>
          var ok := d.ReleaseFunction(cp);
      }
    }
  }

  lemma CompiledAgree(functions: Functions, parsed: Functions, bytes: map<(int, int), bool>, active: set<Breakpoint>)
    requires AllLive(active, functions) && BytesAgree(bytes, active, functions) && Fresh(parsed, functions, bytes)
    ensures var more := bytes + map k | k in Offsets(parsed) :: false;
            && BytesAgree(more, active, functions)
            && (forall k <- more :: k.0 in parsed ==> !more[k]) && (forall k <- Offsets(parsed) :: k in more)
    ensures functions.Keys !! parsed.Keys
  {
    assert forall cp <- parsed :: cp !in functions;
    var more := bytes + map k | k in Offsets(parsed) :: false;
    forall k | k in more
      ensures more[k] <==> Enabled(k, active, functions)
    {
      if k !in bytes {
        assert k.0 in parsed;
      }
    }
  }

  // ----- New functions -----

  lemma AddLine(listed: set<Breakpoint>, cp: int, seen: set<int>, line: int)
    requires (forall b <- listed :: b.cp != cp) && line !in seen
    ensures Breakpoint(cp, line) !in listed + LinesOf(cp, seen)
    ensures listed + LinesOf(cp, seen + {line}) == (listed + LinesOf(cp, seen)) + {Breakpoint(cp, line)}
  {
    var more, b := LinesOf(cp, seen + {line}), Breakpoint(cp, line);
    assert more == LinesOf(cp, seen) + {b} by {
      assert b in more;
    }
  }

  /** The breakpoints of the old functions and of the new ones that are not left. */
  ghost predicate Added(listed: set<Breakpoint>, old_: Functions, parsed: Functions, left: set<int>) {
    forall b :: b in listed <==> Live(b, old_) || (Live(b, parsed) && b.cp !in left)
  }

  lemma AddedNone(old_: Functions, parsed: Functions)
    ensures Added(BreakpointsOf(old_), old_, parsed, parsed.Keys)
  {
    forall b
      ensures b in BreakpointsOf(old_) <==> Live(b, old_)
    {
      assert b == Breakpoint(b.cp, b.line);
    }
  }

  lemma AddedOne(listed: set<Breakpoint>, old_: Functions, parsed: Functions, left: set<int>, cp: int)
    requires Added(listed, old_, parsed, left) && cp in left && cp in parsed && old_.Keys !! parsed.Keys
    ensures forall b <- listed :: b.cp != cp
    ensures Added(listed + LinesOf(cp, parsed[cp].lines.Keys), old_, parsed, left - {cp})
  {
    var more := listed + LinesOf(cp, parsed[cp].lines.Keys);
    forall b
      ensures b in more <==> Live(b, old_) || (Live(b, parsed) && b.cp !in left - {cp})
    {
      assert b.cp == cp && b.line in parsed[cp].lines ==> b == Breakpoint(cp, b.line);
    }
  }

  lemma AddedAll(listed: set<Breakpoint>, old_: Functions, parsed: Functions)
    requires Added(listed, old_, parsed, {}) && old_.Keys !! parsed.Keys
    ensures listed == BreakpointsOf(old_ + parsed)
  {
    forall b
      ensures b in listed <==> b in BreakpointsOf(old_ + parsed)
    {
      assert b == Breakpoint(b.cp, b.line);
      assert Live(b, old_ + parsed) <==> Live(b, old_) || Live(b, parsed);
    }
  }

  lemma OffsetIn(functions: Functions, cp: int, o: int)
    requires cp in functions && o in functions[cp].offsets
    ensures (cp, o) in Offsets(functions)
  {}

  /** New functions bring disabled bytes and leave the others alone. */
  lemma NewCode(functions: Functions, parsed: Functions, bytes: map<(int, int), bool>, active: set<Breakpoint>)
    requires AllLive(active, functions) && BytesAgree(bytes, active, functions) && functions.Keys !! parsed.Keys
    requires forall cp <- parsed :: WellFormed(parsed[cp])
    requires forall k <- bytes :: k.0 in parsed ==> !bytes[k]
    requires forall k <- Offsets(parsed) :: k in bytes
    ensures AllLive(active, functions + parsed) && BytesAgree(bytes, active, functions + parsed)
  {
    var more := functions + parsed;
    forall k | k in bytes
      ensures bytes[k] <==> Enabled(k, active, more)
    {
      if Enabled(k, active, functions) {
        var b :| b in active && Live(b, functions) && Key(b, functions) == k;
        assert Live(b, more) && Key(b, more) == k;
      }
      if Enabled(k, active, more) {
        var b :| b in active && Live(b, more) && Key(b, more) == k;
        assert Live(b, functions) && Key(b, functions) == k;
      }
    }
    forall b: Breakpoint | Live(b, more)
      ensures Key(b, more) in bytes
    {
      if b.cp in parsed {
        assert WellFormed(parsed[b.cp]);
        OffsetIn(parsed, b.cp, parsed[b.cp].lines[b.line]);
      } else {
        assert Live(b, functions) && Key(b, functions) == Key(b, more);
      }
    }
  }

  /** A pending line is looked for if it lies within the source that was found for its name. */
  ghost predicate Reachable(target: Pending, parsed: Functions) {
    target.PendingLine? ==>
      && target.line > 0 && (exists cp <- parsed :: SourceMatches(parsed[cp].sourceName, target.source))
      && (forall cp <- parsed :: SourceMatches(parsed[cp].sourceName, target.source) ==> target.line <= parsed[cp].sourceLines)
  }

  /** It is looked for only if some source of its name has the line. */
  ghost predicate Possible(target: Pending, parsed: Functions) {
    target.PendingLine? ==>
      target.line > 0 && exists cp <- parsed :: SourceMatches(parsed[cp].sourceName, target.source) && target.line <= parsed[cp].sourceLines
  }

  /** The search for the source of a pending breakpoint: any function of that source gives the number of lines. */
  method Tried(target: Pending, parsed: Functions) returns (tried: bool)
    ensures Reachable(target, parsed) ==> tried
    ensures tried ==> Possible(target, parsed)
  {
    hide SourceMatches;
    if target.PendingFunction? {
      return true;
    }
    var sourceLines := 0;
    var left := parsed.Keys;
    ghost var found := false;
    while left != {}
      invariant left <= parsed.Keys && sourceLines == 0
      invariant forall cp <- parsed :: cp !in left ==> !SourceMatches(parsed[cp].sourceName, target.source)
      decreases |left|
    {
      HasElement(left);
      var cp :| cp in left;
      left := left - {cp};
      if SourceMatches(parsed[cp].sourceName, target.source) {
        return 0 < target.line <= parsed[cp].sourceLines;
      }
    }
    tried := 0 < target.line <= sourceLines;
  }

  // ----- Released functions -----

  ghost function LinesOf(cp: int, lines: set<int>): set<Breakpoint> {
    set l | l in lines :: Breakpoint(cp, l)
  }

  lemma LinesStart(functions: Functions, cp: int, active: set<Breakpoint>)
    ensures BreakpointsOf(functions) - LinesOf(cp, {}) == BreakpointsOf(functions) && active - LinesOf(cp, {}) == active
  {
    hide BreakpointsOf;
  }

  lemma LinesStep(functions: Functions, cp: int, seen: set<int>, line: int, active: set<Breakpoint>)
    requires cp in functions && line in functions[cp].lines && line !in seen
    ensures var all, b := BreakpointsOf(functions), Breakpoint(cp, line);
            && b in all - LinesOf(cp, seen) && all - LinesOf(cp, seen + {line}) == (all - LinesOf(cp, seen)) - {b}
            && active - LinesOf(cp, seen + {line}) == (active - LinesOf(cp, seen)) - {b}
  {
    var more, b := LinesOf(cp, seen + {line}), Breakpoint(cp, line);
    assert b in BreakpointsOf(functions);
    hide BreakpointsOf;
    assert more == LinesOf(cp, seen) + {b} by {
      assert b in more;
    }
  }

  lemma NotThere(functions: Functions, active: set<Breakpoint>, cp: int)
    requires cp !in functions && AllLive(active, functions)
    ensures functions - {cp} == functions && active == set b | b in active && b.cp != cp
  {}

  /** Without a function its breakpoints are not listed, not active, and not among the bytes. */
  lemma Released(functions: Functions, cp: int, bytes: map<(int, int), bool>, active: set<Breakpoint>)
    requires cp in functions && AllLive(active, functions) && BytesAgree(bytes, active, functions)
    ensures var gone, less := LinesOf(cp, functions[cp].lines.Keys), functions - {cp};
            && BreakpointsOf(functions) - gone == BreakpointsOf(less)
            && active - gone == (set b | b in active && b.cp != cp)
            && AllLive(active - gone, less)
            && BytesAgree(map k | k in bytes && k.0 != cp :: bytes[k], active - gone, less)
  {
    var gone, less := LinesOf(cp, functions[cp].lines.Keys), functions - {cp};
    forall b
      ensures b in BreakpointsOf(functions) - gone <==> b in BreakpointsOf(less)
      ensures b in active - gone <==> b in active && b.cp != cp
    {
      assert b.cp == cp && b.line in functions[cp].lines ==> b == Breakpoint(cp, b.line) && b in gone;
    }
    LessCode(functions, cp, bytes, active, active - gone);
  }

  lemma LessCode(functions: Functions, cp: int, bytes: map<(int, int), bool>, active: set<Breakpoint>, rest: set<Breakpoint>)
    requires AllLive(active, functions) && BytesAgree(bytes, active, functions)
    requires forall b :: b in rest <==> b in active && b.cp != cp
    ensures BytesAgree(map k | k in bytes && k.0 != cp :: bytes[k], rest, functions - {cp})
  {
    var less, left := functions - {cp}, map k | k in bytes && k.0 != cp :: bytes[k];
    forall k | k in left
      ensures left[k] <==> Enabled(k, rest, less)
    {
      if Enabled(k, active, functions) {
        var b :| b in active && Live(b, functions) && Key(b, functions) == k;
        assert b in rest && Live(b, less) && Key(b, less) == k;
      }
      if Enabled(k, rest, less) {
        var b :| b in rest && Live(b, less) && Key(b, less) == k;
        assert b in active && Live(b, functions) && Key(b, functions) == k;
      }
    }
    forall b: Breakpoint | Live(b, less)
      ensures Key(b, less) in left
    {
      assert Live(b, functions) && Key(b, functions) == Key(b, less);
    }
  }

  lemma NumbersDiffer(list: map<int, Breakpoint>, index: map<Breakpoint, int>, pending: map<int, Pending>, next: nat, i: int)
    requires Numbered(list, index, pending, next)
    ensures i in list ==> pending - {i} == pending
    ensures i !in list ==> list - {i} == list
    ensures i !in pending ==> pending - {i} == pending
  {}

  lemma NoKeys<T, U>(m: map<T, U>)
    ensures m.Keys == {} ==> m == map[]
  {
    assert m.Keys == {} ==> forall x :: x !in m;
  }

  lemma ValueHasKey(m: map<int, Pending>, q: Pending)
    requires q in m.Values
    ensures exists j :: j in m && m[j] == q
  {
    assert (forall j <- m :: m[j] != q) ==> q !in m.Values;
  }

  /** The breakpoints where functions of this name start. */
  ghost function StartsIn(name: string, functions: Functions, seen: set<int>): set<Breakpoint> {
    set cp | cp in seen && cp in functions && functions[cp].name == name :: Breakpoint(cp, functions[cp].firstLine)
  }

  /** The functions that are not left were looked at, and those of this name have their start enabled. */
  ghost predicate Progress(name: string, functions: Functions, left: set<int>, seen: set<int>,
                           before: set<Breakpoint>, now: set<Breakpoint>, found: bool)
  {
    && left <= functions.Keys && seen == functions.Keys - left
    && now == before + StartsIn(name, functions, seen) && (found <==> StartsIn(name, functions, seen) != {})
  }

  lemma NothingSeen(name: string, functions: Functions, before: set<Breakpoint>)
    ensures Progress(name, functions, functions.Keys, {}, before, before, false)
  {}

  lemma SeeOne(name: string, functions: Functions, left: set<int>, seen: set<int>,
               before: set<Breakpoint>, now: set<Breakpoint>, found: bool, cp: int)
    requires Progress(name, functions, left, seen, before, now, found) && cp in left
    ensures cp in functions && if HasName(cp, name, functions)
            then Progress(name, functions, left - {cp}, seen + {cp}, before, now + {Breakpoint(cp, functions[cp].firstLine)}, true)
            else Progress(name, functions, left - {cp}, seen + {cp}, before, now + {}, found)
  {
    hide StartsIn;
    StartsStep(name, functions, seen, cp);
    SetsJoin(before, StartsIn(name, functions, seen), Breakpoint(cp, functions[cp].firstLine));
  }

  lemma AllSeen(name: string, functions: Functions, seen: set<int>, before: set<Breakpoint>, now: set<Breakpoint>, found: bool)
    requires Progress(name, functions, {}, seen, before, now, found)
    ensures now == before + Matching(PendingFunction(name), functions)
    ensures found <==> Matching(PendingFunction(name), functions) != {}
  {
    assert functions.Keys - {} == functions.Keys;
    StartsMatch(name, functions);
  }

  lemma SetsJoin(a: set<Breakpoint>, b: set<Breakpoint>, c: Breakpoint)
    ensures a + (b + {c}) == (a + b) + {c} && b + {} == b && (a + b) + {} == a + b && b + {c} != {}
  {
    assert c in b + {c};
  }

  predicate HasName(cp: int, name: string, functions: Functions) {
    cp in functions && functions[cp].name == name
  }

  lemma StartsStep(name: string, functions: Functions, seen: set<int>, cp: int)
    ensures StartsIn(name, functions, {}) == {}
    ensures StartsIn(name, functions, seen + {cp})
         == StartsIn(name, functions, seen) + if HasName(cp, name, functions) then {Breakpoint(cp, functions[cp].firstLine)} else {}
    ensures HasName(cp, name, functions) ==> StartsIn(name, functions, seen + {cp}) != {}
  {
    if HasName(cp, name, functions) {
      assert Breakpoint(cp, functions[cp].firstLine) in StartsIn(name, functions, seen + {cp});
    }
  }

  lemma StartsMatch(name: string, functions: Functions)
    ensures StartsIn(name, functions, functions.Keys) == Matching(PendingFunction(name), functions)
  {}

  lemma AddedValue(m: map<int, Pending>, i: int, p: Pending)
    requires i !in m
    ensures m[i := p].Values == m.Values + {p}
  {
    var more := m[i := p];
    assert more[i] == p && i in more.Keys;
    forall q
      ensures q in more.Values <==> q in m.Values + {p}
    {
      if q in m.Values {
        ValueHasKey(m, q);
        var j :| j in m && m[j] == q;
        assert more[j] == q;
      }
    }
  }

  lemma ListedAreLive(list: LineList, functions: Functions, line: int)
    requires Lists(list, BreakpointsOf(functions))
    ensures forall b :: b in Get(list, line) <==> b in BreakpointsOf(functions) && b.line == line
    ensures forall b <- Get(list, line) :: Live(b, functions)
  {}
}
