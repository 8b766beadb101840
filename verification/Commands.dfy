/** The short commands of the client: what they set at the server, and where a stepping engine stops. */
module Commands {
  import opened Options
  import opened MachineWords
  import opened ServerMessages

  // ----- What the virtual machine does between two stops -----

  /** A function is entered or left, or a breakpoint position is reached, whose byte may be enabled. */
  datatype Event = Enter | Leave | Position(enabled: bool)

  /** The test at a breakpoint position. */
  predicate Stops(st: State, enabled: bool) {
    enabled || (st.flags.vmStop && (st.stop == NO_FRAME || st.stop == st.top))
  }

  /** A frame that ends while the engine is to stop in it lets the engine stop anywhere. */
  function After(st: State, e: Event): State {
    match e
    case Enter => st.(top := st.top + 1)
    case Leave => st.(top := Caller(st.top), stop := if st.stop == st.top then NO_FRAME else st.stop)
    case Position(_) => st
  }

  function AfterAll(st: State, events: seq<Event>): State {
    if events == [] then st else After(AfterAll(st, events[..|events| - 1]), events[|events| - 1])
  }

  /** How deep the calls are after some events. */
  function Depth(n: int, events: seq<Event>): int {
    if events == [] then n else
      Depth(n, events[..|events| - 1]) + match events[|events| - 1] case Enter => 1 case Leave => -1 case Position(_) => 0
  }

  /** Only frames that were entered are left. */
  ghost predicate Balanced(n: nat, events: seq<Event>) {
    forall j | 0 <= j <= |events| :: Depth(n, events[..j]) >= 0
  }

  predicate EndedAt(m: nat, n: nat, events: seq<Event>, j: nat)
    requires j <= |events|
  {
    Depth(n, events[..j]) < m
  }

  /** Frame m has ended at some time. */
  ghost predicate Ended(m: nat, n: nat, events: seq<Event>) {
    exists j | 0 <= j <= |events| :: EndedAt(m, n, events, j)
  }

  /** The engine stops at event k, when it started in this state. */
  ghost predicate StopsAt(st: State, events: seq<Event>, k: nat)
    requires k < |events|
  {
    events[k].Position? && Stops(AfterAll(st, events[..k]), events[k].enabled)
  }

  lemma BalancedBefore(n: nat, events: seq<Event>, k: nat)
    requires Balanced(n, events) && k <= |events|
    ensures Balanced(n, events[..k])
  {
    forall j | 0 <= j <= k
      ensures Depth(n, events[..k][..j]) >= 0
    {
      assert events[..k][..j] == events[..j];
    }
  }

  lemma EndedLonger(m: nat, n: nat, events: seq<Event>)
    requires events != []
    ensures Ended(m, n, events) <==> Ended(m, n, events[..|events| - 1]) || Depth(n, events) < m
  {
    var init := events[..|events| - 1];
    forall j | 0 <= j <= |init|
      ensures EndedAt(m, n, init, j) == EndedAt(m, n, events, j)
    {
      assert init[..j] == events[..j];
    }
    assert EndedAt(m, n, events, |events|) == (Depth(n, events) < m) by {
      assert events[..|events|] == events;
    }
    hide EndedAt, Depth;
    if Ended(m, n, events) {
      var j :| 0 <= j <= |events| && EndedAt(m, n, events, j);
      assert j <= |init| ==> EndedAt(m, n, init, j);
    }
    if Ended(m, n, init) {
      var j :| 0 <= j <= |init| && EndedAt(m, n, init, j);
      assert EndedAt(m, n, events, j);
    }
  }

  /** The wanted frame is forgotten when it ends, and nothing else of the state changes but the depth. */
  lemma {:induction false} WantedFrame(st: State, events: seq<Event>)
    requires Balanced(st.top, events) && st.stop <= st.top
    ensures var now := AfterAll(st, events);
            && now.top == Depth(st.top, events) && now.flags == st.flags
            && now.stop == (if Ended(st.stop, st.top, events) then NO_FRAME else st.stop) && now.stop <= now.top
  {
    hide Balanced, Ended;
    if events == [] {
      NothingEnded(st.stop, st.top);
    } else {
      var init := events[..|events| - 1];
      BalancedBefore(st.top, events, |init|);
      DepthIsLegal(st.top, events);
      WantedFrame(st, init);
      EndedLonger(st.stop, st.top, events);
    }
  }

  lemma NothingEnded(m: nat, n: nat)
    ensures Ended(m, n, []) <==> n < m
  {
    var none: seq<Event> := [];
    assert none[..0] == [];
    assert EndedAt(m, n, none, 0) == (n < m);
  }

  lemma DepthIsLegal(n: nat, events: seq<Event>)
    requires Balanced(n, events)
    ensures Depth(n, events) >= 0
  {
    assert events[..|events|] == events;
  }

  // ----- Where the execution commands stop -----

  /** A command that is given while the engine waits in frame st.top. */
  predicate InBreakpointMode(st: State) {
    st.flags.breakpointMode && st.expected == 0 && st.top > NO_FRAME
  }

  /** STEP: the engine runs and stops at the next position, whatever function that is in. */
  lemma StepStops(st: State, maxReceive: nat, fails: seq<Byte> -> bool, events: seq<Event>, k: nat)
    requires InBreakpointMode(st) && maxReceive >= FIRST_HEADER && Balanced(st.top, events)
    requires k < |events| && events[k].Position?
    ensures var (ok, next) := Process(st, [STEP], maxReceive, fails);
            ok && next.resume && StopsAt(next, events, k)
  {
    var (ok, next) := Process(st, [STEP], maxReceive, fails);
    BalancedBefore(st.top, events, k);
    WantedFrame(next, events[..k]);
  }

  /** NEXT: it stops in the function itself but not in functions that it calls, and anywhere once it has returned. */
  lemma NextStops(st: State, maxReceive: nat, fails: seq<Byte> -> bool, events: seq<Event>, k: nat)
    requires InBreakpointMode(st) && maxReceive >= FIRST_HEADER && Balanced(st.top, events)
    requires k < |events| && events[k].Position?
    ensures var (ok, next) := Process(st, [NEXT], maxReceive, fails);
            && ok && next.resume
            && (StopsAt(next, events, k) <==>
                  events[k].enabled || Depth(st.top, events[..k]) == st.top || Ended(st.top, st.top, events[..k]))
  {
    var (ok, next) := Process(st, [NEXT], maxReceive, fails);
    BalancedBefore(st.top, events, k);
    WantedFrame(next, events[..k]);
  }

  /** FINISH: it stops neither in the function nor in what that calls, but in its caller, and anywhere once the caller has
      returned as well. The outermost function has no caller: the engine stops at the next position. */
  lemma FinishStops(st: State, maxReceive: nat, fails: seq<Byte> -> bool, events: seq<Event>, k: nat)
    requires InBreakpointMode(st) && maxReceive >= FIRST_HEADER && Balanced(st.top, events)
    requires k < |events| && events[k].Position?
    ensures var (ok, next) := Process(st, [FINISH], maxReceive, fails);
            && ok && next.resume
            && (st.top > 1 ==>
                  (StopsAt(next, events, k) <==>
                     events[k].enabled || Depth(st.top, events[..k]) == st.top - 1 || Ended(st.top - 1, st.top, events[..k])))
            && (st.top == 1 ==> StopsAt(next, events, k))
  {
    var (ok, next) := Process(st, [FINISH], maxReceive, fails);
    BalancedBefore(st.top, events, k);
    WantedFrame(next, events[..k]);
  }

  /** CONTINUE: it stops at enabled breakpoints only. */
  lemma ContinueStops(st: State, maxReceive: nat, fails: seq<Byte> -> bool, events: seq<Event>, k: nat)
    requires InBreakpointMode(st) && maxReceive >= FIRST_HEADER && Balanced(st.top, events)
    requires k < |events| && events[k].Position?
    ensures var (ok, next) := Process(st, [CONTINUE], maxReceive, fails);
            ok && next.resume && (StopsAt(next, events, k) <==> events[k].enabled)
  {
    var (ok, next) := Process(st, [CONTINUE], maxReceive, fails);
    BalancedBefore(st.top, events, k);
    WantedFrame(next, events[..k]);
  }

  /** STOP, which may come at any time: it does not resume, and the next position of a running engine stops it. */
  lemma StopStops(st: State, maxReceive: nat, fails: seq<Byte> -> bool, events: seq<Event>, k: nat)
    requires st.expected == 0 && maxReceive >= FIRST_HEADER && Balanced(st.top, events)
    requires k < |events| && events[k].Position?
    ensures var (ok, next) := Process(st, [STOP], maxReceive, fails);
            ok && !next.resume && StopsAt(next, events, k)
  {
    var (ok, next) := Process(st, [STOP], maxReceive, fails);
    BalancedBefore(st.top, events, k);
    WantedFrame(next, events[..k]);
  }

  /** An exception that the user throws resumes the engine, which stops where it is caught. An evaluation only records. */
  lemma EvalStops(st: State, text: seq<Byte>, fails: seq<Byte> -> bool, events: seq<Event>, k: nat)
    requires |text| >= 5 && Balanced(st.top, events) && k < |events| && events[k].Position?
    ensures var next := Evaluate(st, text, fails);
            if text[4] != EVAL_EVAL && !fails(text)
            then next.resume && next.flags.exceptionThrown && StopsAt(next, events, k)
            else next == st.(evaluated := st.evaluated + [text])
  {
    var next := Evaluate(st, text, fails);
    if text[4] != EVAL_EVAL && !fails(text) {
      BalancedBefore(st.top, events, k);
      WantedFrame(next, events[..k]);
    }
  }

  /** The part of the interpreter loop that concerns the debugger: it runs to the first stop. */
  method Execute(s: Server, events: seq<Event>) returns (k: nat)
    modifies s`top, s`stop, s`flags
    ensures k <= |events| && forall j | 0 <= j < k :: !StopsAt(old(s.Now()), events, j)
    ensures k < |events| ==> StopsAt(old(s.Now()), events, k)
    ensures s.Now() == (var now := AfterAll(old(s.Now()), events[..k]);
                        if k < |events| then now.(flags := now.flags.(breakpointMode := true, exceptionThrown := false)) else now)
  {
    k := 0;
    while k < |events|
      invariant 0 <= k <= |events| && s.Now() == AfterAll(old(s.Now()), events[..k])
      invariant forall j | 0 <= j < k :: !StopsAt(old(s.Now()), events, j)
    {
      assert events[..k + 1][..k] == events[..k];
      match events[k] {
        case Enter =>
          s.top := s.top + 1;
        case Leave =>
          if s.stop == s.top {
            s.stop := NO_FRAME;
          }
          s.top := Caller(s.top);
        case Position(enabled) =>
          if enabled || (s.flags.vmStop && (s.stop == NO_FRAME || s.stop == s.top)) {
            s.flags := s.flags.(breakpointMode := true, exceptionThrown := false);
            return;
          }
      }
      k := k + 1;
    }
  }

  /** The user steps over a line: the engine stops at the first enabled breakpoint, at the first position of the same
      function, or after its return, whichever comes first. */
  method StepOver(s: Server, events: seq<Event>) returns (k: nat)
    requires s.Valid() && InBreakpointMode(s.Now()) && Balanced(s.top, events)
    modifies s
    ensures k <= |events|
    ensures forall j | 0 <= j < |events| && events[j].Position? ::
              (j < k ==> !Over(old(s.top), events, j)) && (j == k ==> Over(old(s.top), events, j))
    ensures k < |events| ==> events[k].Position? && s.flags.breakpointMode
  {
    ghost var st := s.Now();
    forall j | 0 <= j < |events| && events[j].Position?
      ensures StopsAt(Process(st, [NEXT], s.maxReceive, s.fails).1, events, j) <==> Over(st.top, events, j)
    {
      NextStops(st, s.maxReceive, s.fails, events, j);
    }
    hide Process, StopsAt, Over, Stops;
    NextIsTaken(st, s.maxReceive, s.fails);
    var ok := s.ProcessMessage([NEXT]);
    ghost var next := s.Now();
    s.flags := s.flags.(breakpointMode := false);
    LeavingChangesNothing(next, events);
    k := Execute(s, events);
    if k < |events| {
      StopIsPosition(next, events, k);
    }
  }

  ghost predicate Over(n: nat, events: seq<Event>, k: nat)
    requires k < |events|
  {
    events[k].Position? && (events[k].enabled || Depth(n, events[..k]) == n || Ended(n, n, events[..k]))
  }

  lemma NextIsTaken(st: State, maxReceive: nat, fails: seq<Byte> -> bool)
    requires InBreakpointMode(st) && maxReceive >= FIRST_HEADER
    ensures Process(st, [NEXT], maxReceive, fails).0
  {}

  lemma StopIsPosition(st: State, events: seq<Event>, k: nat)
    requires k < |events| && StopsAt(st, events, k)
    ensures events[k].Position?
  {}

  /** Breakpoint mode itself has no part in the test. */
  lemma LeavingChangesNothing(st: State, events: seq<Event>)
    ensures var left := st.(flags := st.flags.(breakpointMode := false));
            forall k | 0 <= k < |events| :: StopsAt(left, events, k) <==> StopsAt(st, events, k)
  {
    forall k | 0 <= k < |events|
      ensures StopsAt(st.(flags := st.flags.(breakpointMode := false)), events, k) <==> StopsAt(st, events, k)
    {
      SameRun(st, events[..k]);
    }
  }

  lemma {:induction false} SameRun(st: State, events: seq<Event>)
    ensures var left := st.(flags := st.flags.(breakpointMode := false));
            && AfterAll(left, events).stop == AfterAll(st, events).stop && AfterAll(left, events).top == AfterAll(st, events).top
            && AfterAll(left, events).flags == left.flags && AfterAll(st, events).flags == st.flags
  {
    if events != [] {
      SameRun(st, events[..|events| - 1]);
    }
  }

  // ----- The messages that set something -----

  /** _send_exception_config and _send_parser_config: the flag is what the user asked for, and nothing else changes. */
  lemma ConfigurationArrives(st: State, enable: bool, maxReceive: nat, fails: seq<Byte> -> bool)
    requires st.expected == 0 && maxReceive >= FIRST_HEADER
    ensures var b: Byte := if enable then 1 else 0;
            && Process(st, [EXCEPTION_CONFIG, b], maxReceive, fails) == (true, st.(flags := st.flags.(ignoreException := !enable)))
            && Process(st, [PARSER_CONFIG, b], maxReceive, fails) == (true, st.(flags := st.flags.(parserWait := enable)))
  {}

  /** A short message is taken only with the size of its structure, and GET_SCOPE_VARIABLES is the last one there is. */
  lemma SizesAreChecked(st: State, m: seq<Byte>, maxReceive: nat, fails: seq<Byte> -> bool)
    requires m != [] && st.expected == 0 && maxReceive >= FIRST_HEADER && Process(st, m, maxReceive, fails).0
    ensures 1 <= m[0] <= 20 && m[0] != 9 && m[0] != 18
    ensures m[0] in {5, 6, 7, 10, 11, 12, 13, 14, 15, 19} ==> |m| == 1
    ensures m[0] in {3, 4} ==> |m| == 2
    ensures m[0] == 1 ==> |m| == 3
    ensures m[0] == 20 ==> |m| == 5
    ensures m[0] == 2 ==> |m| == 8
    ensures m[0] in {16, 17} ==> |m| >= 10
    ensures m[0] == 16 ==> |m| == 10
    ensures m[0] == 8 ==> |m| >= 6
  {}

  /** The end of a wait after parsing, of the client sources, or a new context: only while the engine waits for it. */
  lemma EndOfWaiting(st: State, maxReceive: nat, fails: seq<Byte> -> bool)
    requires st.expected == 0 && maxReceive >= FIRST_HEADER
    ensures Process(st, [PARSER_RESUME], maxReceive, fails)
         == if st.flags.parserWaitMode then (true, st.(flags := st.flags.(parserWaitMode := false))) else (false, Closing(st))
    ensures Process(st, [NO_MORE_SOURCES], maxReceive, fails)
         == if st.flags.clientSourceMode
            then (true, st.(flags := st.flags.(clientNoSource := true, clientSourceMode := false), resume := true))
            else (false, Closing(st))
    ensures Process(st, [CONTEXT_RESET], maxReceive, fails)
         == if st.flags.clientSourceMode
            then (true, st.(flags := st.flags.(contextReset := true, clientSourceMode := false), resume := true))
            else (false, Closing(st))
  {}

  /** _send_breakpoint. */
  function BreakpointMessage(cp: nat, offset: nat, active: bool): seq<Byte> {
    [UPDATE_BREAKPOINT, if active then 1 else 0] + Bytes2(cp) + Bytes4(offset)
  }

  /** It sets exactly the byte that the client means. */
  lemma BreakpointArrives(st: State, cp: nat, offset: nat, active: bool, maxReceive: nat, fails: seq<Byte> -> bool)
    requires st.expected == 0 && maxReceive >= FIRST_HEADER && cp < 0x1_0000 && offset < UINT32
    ensures Process(st, BreakpointMessage(cp, offset, active), maxReceive, fails)
         == (true, st.(breakpoints := st.breakpoints[(cp, offset) := active]))
  {
    hide Read2, Read4, Bytes2, Bytes4;
    var m := BreakpointMessage(cp, offset, active);
    assert m[2..4] == Bytes2(cp) && m[4..8] == Bytes4(offset);
    SameField2(m, 2, Bytes2(cp));
    SameField4(m, 4, Bytes4(offset));
  }

  /** _send_bytecode_cp. */
  function ReleaseMessage(cp: nat): seq<Byte> { [FREE_BYTE_CODE_CP] + Bytes2(cp) }

  /** The byte code that waits for its release, the newest first. */
  function Waiting(cps: seq<nat>): (r: seq<seq<Byte>>)
    ensures |r| == |cps|
  {
    seq(|cps|, i requires 0 <= i < |cps| => Bytes2(cps[|cps| - 1 - i]))
  }

  ghost function Releases(st: State, cps: seq<nat>, maxReceive: nat, fails: seq<Byte> -> bool): (bool, State)
    requires maxReceive >= FIRST_HEADER && st.expected == 0
    decreases |cps|
  {
    if cps == [] then (true, st)
    else
      var (ok, next) := Process(st, ReleaseMessage(cps[0]), maxReceive, fails);
      if ok && next.expected == 0 then Releases(next, cps[1..], maxReceive, fails) else (false, next)
  }

  /** A client that answers every release in the order of the reports frees all of it, and only that. */
  lemma {:induction false} ReleasesArrive(st: State, cps: seq<nat>, maxReceive: nat, fails: seq<Byte> -> bool)
    requires maxReceive >= FIRST_HEADER && st.expected == 0 && st.freeList == Waiting(cps)
    ensures Releases(st, cps, maxReceive, fails) == (true, st.(freeList := []))
    decreases |cps|
  {
    if cps != [] {
      var m := ReleaseMessage(cps[0]);
      assert m[1..] == Bytes2(cps[0]) == st.freeList[|st.freeList| - 1];
      assert st.freeList[..|st.freeList| - 1] == Waiting(cps[1..]);
      ReleasesArrive(st.(freeList := Waiting(cps[1..])), cps[1..], maxReceive, fails);
    }
  }

  /** Any code but the one that was reported first is refused. */
  lemma ReleaseOutOfOrder(st: State, cp: nat, maxReceive: nat, fails: seq<Byte> -> bool)
    requires maxReceive >= FIRST_HEADER && st.expected == 0
    ensures Process(st, ReleaseMessage(cp), maxReceive, fails).0
       <==> st.freeList != [] && st.freeList[|st.freeList| - 1] == Bytes2(cp)
  {
    assert ReleaseMessage(cp)[1..] == Bytes2(cp);
  }
}
