/** The messages of the debugger client as the server processes them, with the mode flags they need and change. */
module ServerMessages {
  import opened Options
  import opened MachineWords
  import opened Frames
  import opened ClientChannel
  import opened ServerTransport
  import opened ServerReceiver

  const FREE_BYTE_CODE_CP := 1
  const UPDATE_BREAKPOINT := 2
  const EXCEPTION_CONFIG := 3
  const PARSER_CONFIG := 4
  const MEMSTATS := 5
  const STOP := 6
  const PARSER_RESUME := 7
  const CLIENT_SOURCE := 8
  const CLIENT_SOURCE_PART := 9
  const NO_MORE_SOURCES := 10
  const CONTEXT_RESET := 11
  const CONTINUE := 12
  const STEP := 13
  const NEXT := 14
  const FINISH := 15
  const GET_BACKTRACE := 16
  const EVAL := 17
  const EVAL_PART := 18
  const GET_SCOPE_CHAIN := 19
  const GET_SCOPE_VARIABLES := 20

  const FIRST_HEADER := 5
  const PART_HEADER := 1
  const CP_SIZE := 2
  const BREAKPOINT_SIZE := 8  // type, is_set_breakpoint, byte_code_cp, offset
  const EVAL_EVAL := 0

  datatype Flags = Flags(
    connected: bool,
    breakpointMode: bool,
    vmStop: bool,
    ignoreException: bool,
    exceptionThrown: bool,
    parserWait: bool,
    parserWaitMode: bool,
    clientSourceMode: bool,
    clientNoSource: bool,
    contextReset: bool)

  /** The byte at an offset of some byte code, both as they are named in a message. */
  function BreakpointKey(m: seq<Byte>): (nat, nat)
    requires |m| == BREAKPOINT_SIZE
  {
    (Read2(m, 2), Read4(m, 4))
  }

  /** The data block of a long message: its announced size and the bytes that have arrived. */
  datatype Data = NoData | Data(size: nat, bytes: seq<Byte>)

  /** The frames of running functions are numbered from the outermost, 1; NO_FRAME is a null pointer to one. */
  const NO_FRAME := 0

  /** The frame that called a frame. */
  function Caller(frame: nat): nat { if frame == NO_FRAME then NO_FRAME else frame - 1 }

  datatype State = State(
    flags: Flags,
    top: nat,   // the running frame
    stop: nat,  // the frame in which to stop, or NO_FRAME for any
    expected: Byte,
    data: Data,
    resume: bool,
    evaluated: seq<seq<Byte>>,
    freeList: seq<seq<Byte>>,
    breakpoints: map<(nat, nat), bool>,
    requests: seq<seq<Byte>>)

  /** jjs_debugger_transport_close leaves no flag but the one that ignores breakpoints. */
  const CLOSED_FLAGS := Flags(false, false, false, false, false, false, false, false, false, false)

  function Closing(st: State): State {
    st.(flags := CLOSED_FLAGS)
  }

  /** jjs_debugger_send_eval: the chain index, the kind of evaluation and the source. A thrown or aborting evaluation
      without an error resumes the execution. */
  function Evaluate(st: State, text: seq<Byte>, fails: seq<Byte> -> bool): State
    requires |text| >= 5
  {
    var done := st.(evaluated := st.evaluated + [text]);
    if fails(text) || text[4] == EVAL_EVAL then done
    else done.(flags := done.flags.(exceptionThrown := true, vmStop := true), stop := NO_FRAME, resume := true)
  }

  /** While parts are awaited, some bytes of the data block are missing. */
  predicate Consistent(st: State) {
    st.expected != 0 ==>
      && (st.expected == EVAL_PART || st.expected == CLIENT_SOURCE_PART)
      && st.data.Data? && |st.data.bytes| < st.data.size && st.data.size >= 5
  }

  /** A part of a long message. */
  function Part(st: State, m: seq<Byte>, fails: seq<Byte> -> bool): (bool, State)
    requires m != [] && Consistent(st) && st.expected != 0
  {
    if m[0] != st.expected || |m| < PART_HEADER + 1 then (false, Closing(st))
    else
      var room := st.data.size - |st.data.bytes|;
      var part := m[PART_HEADER..];
      if |part| > room then (false, Closing(st))
      else
        var more := st.(data := st.data.(bytes := st.data.bytes + part));
        if |part| < room then (true, more)
        else if st.expected == EVAL_PART then (true, Evaluate(more, more.data.bytes, fails).(expected := 0))
        else (true, more.(flags := more.flags.(clientSourceMode := false), resume := true, expected := 0))
  }

  function FirstEval(st: State, m: seq<Byte>, maxReceive: nat, fails: seq<Byte> -> bool): (bool, State)
    requires maxReceive >= FIRST_HEADER
  {
    if |m| < FIRST_HEADER + 5 then (false, Closing(st))
    else
      var size, text := Read4(m, 1), m[FIRST_HEADER..];
      if size <= maxReceive - FIRST_HEADER then
        if size != |text| then (false, Closing(st)) else (true, Evaluate(st, text, fails))
      else (true, st.(data := Data(size, text), expected := EVAL_PART))
  }

  function FirstSource(st: State, m: seq<Byte>, maxReceive: nat): (bool, State)
    requires maxReceive >= FIRST_HEADER
  {
    if |m| <= FIRST_HEADER || !st.flags.clientSourceMode then (false, Closing(st))
    else
      var size, text := Read4(m, 1), m[FIRST_HEADER..];
      if size <= maxReceive - FIRST_HEADER && size != |text| then (false, Closing(st))
      else if size != |text| then (true, st.(data := Data(size, text), expected := CLIENT_SOURCE_PART))
      else (true, st.(data := Data(size, text), flags := st.flags.(clientSourceMode := false), resume := true))
  }

  /** A message with a fixed size. */
  function Fixed(st: State, m: seq<Byte>, size: nat, then_: State): (bool, State) {
    if |m| == size then (true, then_) else (false, Closing(st))
  }

  /** A request that another part of the debugger answers. */
  function Asked(st: State, m: seq<Byte>): State { st.(requests := st.requests + [m]) }

  function Free(st: State, m: seq<Byte>): (bool, State) {
    if |m| == 1 + CP_SIZE && st.freeList != [] && m[1..] == st.freeList[|st.freeList| - 1] then
      (true, st.(freeList := st.freeList[..|st.freeList| - 1]))
    else (false, Closing(st))
  }

  /** jjs_debugger_process_message: whether the message is accepted, and the state afterwards. */
  function Process(st: State, m: seq<Byte>, maxReceive: nat, fails: seq<Byte> -> bool): (bool, State)
    requires m != [] && maxReceive >= FIRST_HEADER && Consistent(st)
  {
    var flags := st.flags;
    if m[0] >= CONTINUE && !flags.breakpointMode then (false, Closing(st))
    else if st.expected != 0 then Part(st, m, fails)
    else match m[0]
      case FREE_BYTE_CODE_CP => Free(st, m)
      case UPDATE_BREAKPOINT => Fixed(st, m, BREAKPOINT_SIZE,
        if |m| == BREAKPOINT_SIZE then st.(breakpoints := st.breakpoints[BreakpointKey(m) := m[1] != 0]) else st)
      case EXCEPTION_CONFIG => Fixed(st, m, 2, if |m| == 2 then st.(flags := flags.(ignoreException := m[1] == 0)) else st)
      case PARSER_CONFIG => Fixed(st, m, 2, if |m| == 2 then st.(flags := flags.(parserWait := m[1] != 0)) else st)
      case MEMSTATS => Fixed(st, m, 1, Asked(st, m))
      case STOP => Fixed(st, m, 1, st.(flags := flags.(vmStop := true), stop := NO_FRAME, resume := false))
      case PARSER_RESUME => if !flags.parserWaitMode then (false, Closing(st))
                else Fixed(st, m, 1, st.(flags := flags.(parserWaitMode := false)))
      case CLIENT_SOURCE => FirstSource(st, m, maxReceive)
      case NO_MORE_SOURCES => if !flags.clientSourceMode then (false, Closing(st))
                 else Fixed(st, m, 1, st.(flags := flags.(clientNoSource := true, clientSourceMode := false), resume := true))
      case CONTEXT_RESET => if !flags.clientSourceMode then (false, Closing(st))
                 else Fixed(st, m, 1, st.(flags := flags.(contextReset := true, clientSourceMode := false), resume := true))
      case CONTINUE => Fixed(st, m, 1, st.(flags := flags.(vmStop := false), stop := NO_FRAME, resume := true))
      case STEP => Fixed(st, m, 1, st.(flags := flags.(vmStop := true), stop := NO_FRAME, resume := true))
      case NEXT => Fixed(st, m, 1, st.(flags := flags.(vmStop := true), stop := st.top, resume := true))
      case FINISH => Fixed(st, m, 1, st.(flags := flags.(vmStop := true), stop := Caller(st.top), resume := true))
      case GET_BACKTRACE => Fixed(st, m, 1 + 4 + 4 + 1, Asked(st, m))
      case EVAL => FirstEval(st, m, maxReceive, fails)
      case GET_SCOPE_CHAIN => Fixed(st, m, 1, Asked(st, m))
      case GET_SCOPE_VARIABLES => Fixed(st, m, 1 + 4, Asked(st, m))
      case _ => (false, Closing(st))
  }

  /** Every message up to the negotiated size keeps the data block consistent, and a refusal closes the connection. */
  lemma ProcessKeeps(st: State, m: seq<Byte>, maxReceive: nat, fails: seq<Byte> -> bool)
    requires m != [] && |m| <= maxReceive && maxReceive >= FIRST_HEADER + 5 && Consistent(st)
    ensures var (ok, next) := Process(st, m, maxReceive, fails);
            && (ok ==> Consistent(next) && next.flags.connected == st.flags.connected)
            && (!ok ==> next.flags == CLOSED_FLAGS)
            && st.evaluated <= next.evaluated && st.requests <= next.requests
  {
    hide Read4, Part, FirstEval, FirstSource, Free;
    if m[0] >= CONTINUE && !st.flags.breakpointMode {
    } else if st.expected != 0 {
      PartKeeps(st, m, fails);
    } else {
      LongKeeps(st, m, maxReceive, fails);
    }
  }

  lemma PartKeeps(st: State, m: seq<Byte>, fails: seq<Byte> -> bool)
    requires m != [] && Consistent(st) && st.expected != 0
    ensures var (ok, next) := Part(st, m, fails);
            && (ok ==> Consistent(next) && next.flags.connected == st.flags.connected)
            && (!ok ==> next.flags == CLOSED_FLAGS)
            && st.evaluated <= next.evaluated && st.requests <= next.requests
  {}

  lemma LongKeeps(st: State, m: seq<Byte>, maxReceive: nat, fails: seq<Byte> -> bool)
    requires m != [] && |m| <= maxReceive && maxReceive >= FIRST_HEADER + 5 && st.expected == 0
    ensures forall r | r in [FirstEval(st, m, maxReceive, fails), FirstSource(st, m, maxReceive), Free(st, m)] ::
            && (r.0 ==> Consistent(r.1) && r.1.flags.connected == st.flags.connected)
            && (!r.0 ==> r.1.flags == CLOSED_FLAGS)
            && st.evaluated <= r.1.evaluated && st.requests <= r.1.requests
  {
    hide Read4;
  }

  /** Outside breakpoint mode only the messages below CONTINUE are accepted, and only they leave a trace. */
  lemma RunModeMessages(st: State, m: seq<Byte>, maxReceive: nat, fails: seq<Byte> -> bool)
    requires m != [] && maxReceive >= FIRST_HEADER && Consistent(st) && !st.flags.breakpointMode && st.expected != EVAL_PART
    ensures var (ok, next) := Process(st, m, maxReceive, fails);
            (ok ==> m[0] < CONTINUE) && next.evaluated == st.evaluated
  {
    hide Read4;
  }

  class Server {
    const receiver: Receiver
    const framing: Framing
    const maxReceive: nat
    const fails: seq<Byte> -> bool
    var flags: Flags
    var top: nat
    var stop: nat
    var expected: Byte
    var data: Data
    var resume: bool
    var evaluated: seq<seq<Byte>>
    var freeList: seq<seq<Byte>>
    var breakpoints: map<(nat, nat), bool>
    var requests: seq<seq<Byte>>

    ghost function Now(): State
      reads this
    {
      State(flags, top, stop, expected, data, resume, evaluated, freeList, breakpoints, requests)
    }

    ghost predicate Valid()
      reads this, receiver, receiver.receiveBuffer
    {
      && receiver.Valid() && Consistent(Now()) && maxReceive >= FIRST_HEADER + 5
      && maxReceive + ServerHeader(framing) <= BUFFER_SIZE
    }

    constructor (framing: Framing, maxReceive: nat, flags: Flags, top: nat, fails: seq<Byte> -> bool, incoming: seq<Event>)
      requires Delivers(incoming) && FIRST_HEADER + 5 <= maxReceive && maxReceive + ServerHeader(framing) <= BUFFER_SIZE
      ensures Valid() && this.framing == framing && this.maxReceive == maxReceive && this.fails == fails
      ensures fresh(receiver) && fresh(receiver.receiveBuffer) && receiver.Incoming() == Arriving(incoming)
      ensures receiver.receivedLength == 0 && receiver.incoming == incoming
      ensures Now() == State(flags, top, NO_FRAME, 0, NoData, false, [], [], map[], [])
    {
      receiver := new Receiver(incoming);
      this.framing, this.maxReceive, this.flags, this.top, this.fails := framing, maxReceive, flags, top, fails;
      stop, expected, data, resume, evaluated, freeList := NO_FRAME, 0, NoData, false, [], [];
      breakpoints, requests := map[], [];
    }

    method Refuse() returns (ok: bool)
      modifies `flags
      ensures !ok && flags == CLOSED_FLAGS
    {
      flags := CLOSED_FLAGS;
      ok := false;
    }

    method SendEval(text: seq<Byte>)
      requires |text| >= 5
      modifies `flags, `stop, `resume, `evaluated
      ensures Now() == Evaluate(old(Now()), text, fails)
    {
      evaluated := evaluated + [text];
      if !fails(text) && text[4] != EVAL_EVAL {
        flags := flags.(exceptionThrown := true, vmStop := true);
        stop := NO_FRAME;
        resume := true;
      }
    }

    /** The branch of jjs_debugger_process_message for an expected part. */
    method ProcessPart(m: seq<Byte>) returns (ok: bool)
      requires m != [] && Consistent(Now()) && expected != 0
      modifies `flags, `stop, `expected, `data, `resume, `evaluated
      ensures (ok, Now()) == Part(old(Now()), m, fails)
    {
      if m[0] != expected || |m| < PART_HEADER + 1 {
        ok := Refuse();
        return;
      }
      var expectedData := data.size - |data.bytes|;
      var size := |m| - PART_HEADER;
      if size > expectedData {
        ok := Refuse();
        return;
      }
      data := data.(bytes := data.bytes + m[PART_HEADER..]);
      if size < expectedData {
        return true;
      }
      if expected == EVAL_PART {
        SendEval(data.bytes);
      } else {
        flags := flags.(clientSourceMode := false);
        resume := true;
      }
      expected := 0;
      ok := true;
    }

    method ProcessFirstEval(m: seq<Byte>) returns (ok: bool)
      requires maxReceive >= FIRST_HEADER
      modifies `flags, `stop, `expected, `data, `resume, `evaluated
      ensures (ok, Now()) == FirstEval(old(Now()), m, maxReceive, fails)
    {
      if |m| < FIRST_HEADER + 5 {
        ok := Refuse();
        return;
      }
      var size := Read4(m, 1);
      if size <= maxReceive - FIRST_HEADER {
        if size != |m| - FIRST_HEADER {
          ok := Refuse();
          return;
        }
        SendEval(m[FIRST_HEADER..]);
        return true;
      }
      data := Data(size, m[FIRST_HEADER..]);
      expected := EVAL_PART;
      ok := true;
    }

    method ProcessFirstSource(m: seq<Byte>) returns (ok: bool)
      requires maxReceive >= FIRST_HEADER
      modifies `flags, `expected, `data, `resume
      ensures (ok, Now()) == FirstSource(old(Now()), m, maxReceive)
    {
      if |m| <= FIRST_HEADER || !flags.clientSourceMode {
        ok := Refuse();
        return;
      }
      var size := Read4(m, 1);
      if size <= maxReceive - FIRST_HEADER && size != |m| - FIRST_HEADER {
        ok := Refuse();
        return;
      }
      data := Data(size, m[FIRST_HEADER..]);
      if size != |m| - FIRST_HEADER {
        expected := CLIENT_SOURCE_PART;
      } else {
        flags := flags.(clientSourceMode := false);
        resume := true;
      }
      ok := true;
    }

    method ProcessMessage(m: seq<Byte>) returns (ok: bool)
      requires m != [] && maxReceive >= FIRST_HEADER && Consistent(Now())
      modifies `flags, `stop, `expected, `data, `resume, `evaluated, `freeList, `breakpoints, `requests
      ensures (ok, Now()) == Process(old(Now()), m, maxReceive, fails)
    {
      hide Part, FirstEval, FirstSource, Consistent, Evaluate;
      if m[0] >= CONTINUE && !flags.breakpointMode {
        ok := Refuse();
        return;
      }
      if expected != 0 {
        ok := ProcessPart(m);
        return;
      }
      if m[0] == EVAL {
        ok := ProcessFirstEval(m);
        return;
      }
      if m[0] == CLIENT_SOURCE {
        ok := ProcessFirstSource(m);
        return;
      }
      if m[0] == FREE_BYTE_CODE_CP {
        if |m| != 1 + CP_SIZE || freeList == [] || m[1..] != freeList[|freeList| - 1] {
          ok := Refuse();
        } else {
          freeList := freeList[..|freeList| - 1];
          ok := true;
        }
        return;
      }
      ok := ProcessCommand(m);
    }

    /** The messages that only set flags or ask for an answer. */
    method ProcessCommand(m: seq<Byte>) returns (ok: bool)
      requires m != [] && expected == 0 && maxReceive >= FIRST_HEADER && Consistent(Now())
      requires m[0] != EVAL && m[0] != CLIENT_SOURCE && m[0] != FREE_BYTE_CODE_CP
      requires m[0] < CONTINUE || flags.breakpointMode
      modifies `flags, `stop, `resume, `breakpoints, `requests
      ensures (ok, Now()) == Process(old(Now()), m, maxReceive, fails)
    {
      hide Part, FirstEval, FirstSource, Consistent, Evaluate, Free;
      var size :=
        match m[0]
        case UPDATE_BREAKPOINT => BREAKPOINT_SIZE
        case EXCEPTION_CONFIG => 2
        case PARSER_CONFIG => 2
        case GET_BACKTRACE => 1 + 4 + 4 + 1
        case GET_SCOPE_VARIABLES => 1 + 4
        case _ => 1;
      if |m| != size || m[0] == CLIENT_SOURCE_PART || m[0] == EVAL_PART || m[0] == 0 || m[0] > GET_SCOPE_VARIABLES {
        ok := Refuse();
        return;
      }
      if m[0] == PARSER_RESUME && !flags.parserWaitMode {
        ok := Refuse();
        return;
      }
      if (m[0] == NO_MORE_SOURCES || m[0] == CONTEXT_RESET) && !flags.clientSourceMode {
        ok := Refuse();
        return;
      }
      ok := true;
      match m[0] {
        case UPDATE_BREAKPOINT => breakpoints := breakpoints[BreakpointKey(m) := m[1] != 0];
        case EXCEPTION_CONFIG => flags := flags.(ignoreException := m[1] == 0);
        case PARSER_CONFIG => flags := flags.(parserWait := m[1] != 0);
        case STOP => flags, stop, resume := flags.(vmStop := true), NO_FRAME, false;
        case PARSER_RESUME => flags := flags.(parserWaitMode := false);
        case NO_MORE_SOURCES => flags, resume := flags.(clientNoSource := true, clientSourceMode := false), true;
        case CONTEXT_RESET => flags, resume := flags.(contextReset := true, clientSourceMode := false), true;
        case CONTINUE => flags, stop, resume := flags.(vmStop := false), NO_FRAME, true;
        case STEP => flags, stop, resume := flags.(vmStop := true), NO_FRAME, true;
        case NEXT => flags, stop, resume := flags.(vmStop := true), top, true;
        case FINISH => flags, stop, resume := flags.(vmStop := true), Caller(top), true;
        case _ => requests := requests + [m];
      }
    }
  }
}
