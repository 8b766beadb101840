/** The CommonJS loader: a cache of modules, some of them still running, and what every require keeps. */
module CommonJs {
  import opened Options

  type Path = string

  /** A cached module. It is loaded once its body has finished. */
  datatype Module = Module(loaded: bool, exports: int)

  datatype Error = InvalidSpecifier | Unresolved | Circular | NotLoadable | Thrown(value: int)

  datatype Result = Exports(value: int) | Exception(error: Error)

  /** One require that a body makes. An exception is caught there, or it ends the body. */
  datatype Step = Step(specifier: Specifier, caught: bool)

  datatype Specifier = NotAString | Request(path: Path)

  /** What running a file does: its source may not load or parse, or its body makes requires and then ends. */
  datatype Body = Broken | Runs(steps: seq<Step>, outcome: Outcome)

  datatype Outcome = Returns(exports: int) | Throws(value: int)

  /** What happens in the run of a file with this number: it starts, one of its requires is answered, it is finished. */
  datatype Event =
    | Started(path: Path, run: nat)
    | Answered(run: nat, specifier: Specifier, result: Result)
    | Finished(path: Path, run: nat, exports: int)

  type Cache = map<Path, Module>

  type Script = (Path, nat) -> Body

  datatype Answer = Answer(specifier: Specifier, result: Result)

  /** The answers that one run got for its requires, in order. */
  ghost function AnswersOf(log: seq<Event>, run: nat): seq<Answer> {
    if log == [] then [] else
      var e := log[|log| - 1];
      AnswersOf(log[..|log| - 1], run) + if e.Answered? && e.run == run then [Answer(e.specifier, e.result)] else []
  }

  /** The body goes on after this answer. */
  predicate GoesOn(step: Step, answer: Answer) { answer.result.Exports? || step.caught }

  /** The answers are to the first requires of a body, and the body has gone on after each of them. */
  ghost predicate Along(steps: seq<Step>, answers: seq<Answer>) {
    && |answers| <= |steps|
    && (forall i | 0 <= i < |answers| :: answers[i].specifier == steps[i].specifier && GoesOn(steps[i], answers[i]))
  }

  /** What a file gives that got these answers: a file that cannot be loaded is never run, the first require that fails
      without being caught is the last one and its exception is the result, and otherwise all requires are made and the end
      of the body decides. */
  ghost predicate Ends(body: Body, answers: seq<Answer>, r: Result) {
    match body
    case Broken => answers == [] && r == Exception(NotLoadable)
    case Runs(steps, outcome) =>
      || (&& |answers| == |steps| && Along(steps, answers)
          && match outcome case Returns(exports) => r == Exports(exports) case Throws(value) => r == Exception(Thrown(value)))
      || (&& 0 < |answers| <= |steps| && Along(steps, answers[..|answers| - 1])
          && var last := |answers| - 1;
             && answers[last] == Answer(steps[last].specifier, r) && r.Exception? && !steps[last].caught)
  }

  /** The cached modules that are not loaded are exactly those whose require has not returned, and whatever finished is
      in the cache with the exports that it finished with and was not started again. */
  ghost predicate Sound(files: set<Path>, cache: Cache, log: seq<Event>, stack: seq<Path>) {
    && NoDuplicates(stack) && cache.Keys <= files
    && (forall p :: p in stack <==> p in cache && !cache[p].loaded)
    && (forall i | 0 <= i < |log| :: log[i].Finished? ==> log[i].path in cache && cache[log[i].path] == Module(true, log[i].exports))
    && (forall p <- cache :: cache[p].loaded ==> Completed(p, cache[p].exports, log))
    && (forall i, j | 0 <= i < j < |log| :: log[i].Finished? && log[j].Started? ==> log[i].path != log[j].path)
  }

  ghost predicate Completed(p: Path, exports: int, log: seq<Event>) {
    exists run :: Finished(p, run, exports) in log
  }

  /** What is in the log is what the files do: the exports of a module are those that a run of its file ended with, and an
      answer with exports was given by a loaded module. */
  ghost predicate Truthful(script: Script, cache: Cache, runs: nat, log: seq<Event>) {
    && (forall e <- log :: e.run < runs)
    && (forall e <- log :: e.Finished? ==> Ends(script(e.path, e.run), AnswersOf(log, e.run), Exports(e.exports)))
    && (forall e <- log :: e.Answered? ==> Given(e.specifier, e.result, cache))
  }

  /** Exports come from a loaded module. */
  ghost predicate Given(specifier: Specifier, r: Result, cache: Cache) {
    r.Exports? ==> specifier.Request? && specifier.path in cache && cache[specifier.path] == Module(true, r.value)
  }

  /** Nothing that was cached is lost or changed, nothing of it was started but perhaps the module `running`, and what is
      new in the log belongs to new runs. */
  ghost predicate Kept(cache0: Cache, runs0: nat, log0: seq<Event>, cache: Cache, runs: nat, log: seq<Event>, running: set<Path>) {
    && log0 <= log && runs0 <= runs
    && (forall p <- cache0 :: p in cache && cache[p] == cache0[p])
    && (forall i | |log0| <= i < |log| :: log[i].Started? ==> log[i].path !in cache0 || log[i].path in running)
    && (forall i | |log0| <= i < |log| :: log[i].run >= runs0)
  }

  lemma KeptSame(cache: Cache, runs: nat, log: seq<Event>, running: set<Path>)
    ensures Kept(cache, runs, log, cache, runs, log, running)
  {}

  lemma KeptTwice(cache0: Cache, runs0: nat, log0: seq<Event>, cache1: Cache, runs1: nat, log1: seq<Event>,
                  cache2: Cache, runs2: nat, log2: seq<Event>, running: set<Path>)
    requires Kept(cache0, runs0, log0, cache1, runs1, log1, running) && Kept(cache1, runs1, log1, cache2, runs2, log2, {})
    ensures Kept(cache0, runs0, log0, cache2, runs2, log2, running)
  {
    assert forall i | 0 <= i < |log1| :: log2[i] == log1[i];
  }

  /** What other runs add to the log does not change the answers of one. */
  lemma {:induction false} OtherRuns(log0: seq<Event>, log: seq<Event>, run: nat)
    requires log0 <= log && forall i | |log0| <= i < |log| :: log[i].Answered? ==> log[i].run != run
    ensures AnswersOf(log, run) == AnswersOf(log0, run)
    decreases |log|
  {
    if log0 != log {
      OtherRuns(log0, log[..|log| - 1], run);
    } else {
      assert log0 == log;
    }
  }

  lemma {:induction false} NoAnswers(log: seq<Event>, run: nat)
    requires forall e <- log :: e.run != run
    ensures AnswersOf(log, run) == []
  {
    if log != [] {
      NoAnswers(log[..|log| - 1], run);
    }
  }

  lemma OneMoreAnswer(log: seq<Event>, e: Event, run: nat)
    ensures AnswersOf(log + [e], run)
         == if e.Answered? && e.run == run then AnswersOf(log, run) + [Answer(e.specifier, e.result)] else AnswersOf(log, run)
  {
    assert (log + [e])[..|log|] == log;
    assert AnswersOf(log, run) + [] == AnswersOf(log, run);
  }

  lemma Enter(files: set<Path>, cache: Cache, log: seq<Event>, stack: seq<Path>, path: Path)
    requires Sound(files, cache, log, stack) && path in files && path !in cache
    ensures Sound(files, cache[path := Module(false, 0)], log, stack + [path])
  {
    hide Completed;
    assert forall p :: p in stack + [path] <==> p in stack || p == path;
  }

  /** A cached module that is new changes no answer. */
  lemma EnterTruthful(script: Script, cache: Cache, runs: nat, log: seq<Event>, path: Path)
    requires Truthful(script, cache, runs, log) && path !in cache
    ensures Truthful(script, cache[path := Module(false, 0)], runs, log)
  {
    hide Ends;
  }

  lemma CompletedLonger(log: seq<Event>, e: Event)
    ensures forall p, exports :: Completed(p, exports, log) ==> Completed(p, exports, log + [e])
  {
    forall p, exports | Completed(p, exports, log)
      ensures Completed(p, exports, log + [e])
    {
      var run :| Finished(p, run, exports) in log;
      assert Finished(p, run, exports) in log + [e];
    }
  }

  /** A module body starts: it is neither loaded nor was it ever. */
  lemma StartBody(files: set<Path>, cache: Cache, log: seq<Event>, stack: seq<Path>, path: Path, run: nat)
    requires Sound(files, cache, log, stack) && path in stack
    ensures Sound(files, cache, log + [Started(path, run)], stack)
  {
    hide Completed;
    CompletedLonger(log, Started(path, run));
  }

  /** The answer to a require is noted. */
  lemma NoteAnswer(files: set<Path>, cache: Cache, log: seq<Event>, stack: seq<Path>, e: Event)
    requires Sound(files, cache, log, stack) && e.Answered?
    ensures Sound(files, cache, log + [e], stack)
  {
    hide Completed;
    CompletedLonger(log, e);
  }

  /** An event of a run that is not finished. */
  lemma NoteTruthful(script: Script, cache: Cache, runs: nat, log: seq<Event>, e: Event)
    requires Truthful(script, cache, runs, log) && !e.Finished? && e.run < runs
    requires (e.Answered? ==> Given(e.specifier, e.result, cache)) && forall f <- log :: f.Finished? ==> f.run != e.run
    ensures Truthful(script, cache, runs, log + [e])
  {
    hide Ends, Given;
    var more := log + [e];
    forall f | f in more && f.Finished?
      ensures Ends(script(f.path, f.run), AnswersOf(more, f.run), Exports(f.exports))
    {
      assert f in log;
      OneMoreAnswer(log, e, f.run);
    }
  }

  /** A new run number. */
  lemma NextRun(script: Script, cache: Cache, runs: nat, log: seq<Event>)
    requires Truthful(script, cache, runs, log)
    ensures Truthful(script, cache, runs + 1, log) && AnswersOf(log, runs) == [] && forall e <- log :: e.run != runs
  {
    hide Ends;
    NoAnswers(log, runs);
  }

  /** A require of a new module comes back: without the module, or with the module loaded. */
  lemma LeaveFailed(files: set<Path>, cache: Cache, log: seq<Event>, stack: seq<Path>, path: Path)
    requires path !in stack && Sound(files, cache, log, stack + [path])
    ensures Sound(files, cache - {path}, log, stack)
  {
    hide Completed;
    OneOff(stack, path);
  }

  lemma LeaveLoaded(files: set<Path>, cache: Cache, log: seq<Event>, stack: seq<Path>, path: Path, run: nat, exports: int)
    requires path !in stack && Sound(files, cache, log, stack + [path])
    ensures Sound(files, cache[path := Module(true, exports)], log + [Finished(path, run, exports)], stack)
  {
    OneOff(stack, path);
    var ended, more := log + [Finished(path, run, exports)], cache[path := Module(true, exports)];
    CompletedLonger(log, Finished(path, run, exports));
    assert ended[|log|] == Finished(path, run, exports);
    assert Completed(path, exports, ended);
    hide Completed;
    assert forall p <- more :: more[p].loaded ==> Completed(p, more[p].exports, ended);
  }

  lemma OneOff(stack: seq<Path>, path: Path)
    ensures var full := stack + [path];
            && full[|stack|] == path && (forall i | 0 <= i < |stack| :: full[i] == stack[i])
            && (forall p :: p in full <==> p in stack || p == path)
            && (NoDuplicates(full) ==> NoDuplicates(stack))
  {}

  /** Taking out a module that was never loaded leaves what was answered true. */
  lemma FailedTruthful(script: Script, cache: Cache, runs: nat, log: seq<Event>, path: Path)
    requires Truthful(script, cache, runs, log) && path in cache && !cache[path].loaded
    ensures Truthful(script, cache - {path}, runs, log)
  {
    hide Ends, AnswersOf;
  }

  /** So does completing it with the exports that its run ended with. */
  lemma LoadedTruthful(script: Script, cache: Cache, runs: nat, log: seq<Event>, path: Path, run: nat, exports: int)
    requires Truthful(script, cache, runs, log) && path in cache && !cache[path].loaded && run < runs
    requires Ends(script(path, run), AnswersOf(log, run), Exports(exports))
    ensures Truthful(script, cache[path := Module(true, exports)], runs, log + [Finished(path, run, exports)])
  {
    hide Ends, AnswersOf;
    var e := Finished(path, run, exports);
    forall f | f in log + [e] && f.Finished?
      ensures Ends(script(f.path, f.run), AnswersOf(log + [e], f.run), Exports(f.exports))
    {
      OneMoreAnswer(log, e, f.run);
    }
  }

  lemma LeaveKept(cache0: Cache, runs0: nat, log0: seq<Event>, cache: Cache, runs: nat, log: seq<Event>, path: Path, run: nat, exports: int)
    requires path !in cache0 && Kept(cache0[path := Module(false, 0)], runs0, log0, cache, runs, log, {path}) && run >= runs0
    ensures Kept(cache0, runs0, log0, cache - {path}, runs, log, {})
    ensures Kept(cache0, runs0, log0, cache[path := Module(true, exports)], runs, log + [Finished(path, run, exports)], {})
  {}

  /** Before the file of a new module is run. */
  lemma Entering(files: set<Path>, script: Script, cache: Cache, runs: nat, log: seq<Event>, stack: seq<Path>, path: Path)
    requires Sound(files, cache, log, stack) && Truthful(script, cache, runs, log) && path in files && path !in cache
    ensures var entered := cache[path := Module(false, 0)];
            && Sound(files, entered, log, stack + [path]) && Truthful(script, entered, runs, log)
            && path in stack + [path] && |files - entered.Keys| < |files - cache.Keys|
  {
    hide Sound, Truthful;
    Enter(files, cache, log, stack, path);
    EnterTruthful(script, cache, runs, log, path);
    FewerLeft(files, cache.Keys, path);
    assert cache[path := Module(false, 0)].Keys == cache.Keys + {path};
    assert (stack + [path])[|stack|] == path;
  }

  /** After it was run. */
  lemma Leaving(files: set<Path>, script: Script, cache0: Cache, runs0: nat, log0: seq<Event>, cache: Cache, runs: nat,
                log: seq<Event>, stack: seq<Path>, path: Path, r: Result)
    requires path !in cache0 && Kept(cache0[path := Module(false, 0)], runs0, log0, cache, runs, log, {path})
    requires Sound(files, cache, log, stack + [path]) && Truthful(script, cache, runs, log)
    requires Ends(script(path, runs0), AnswersOf(log, runs0), r) && runs > runs0
    ensures r.Exception? ==>
              && Sound(files, cache - {path}, log, stack) && Truthful(script, cache - {path}, runs, log)
              && Kept(cache0, runs0, log0, cache - {path}, runs, log, {})
    ensures r.Exports? ==>
              var left, ended := cache[path := Module(true, r.value)], log + [Finished(path, runs0, r.value)];
              && Sound(files, left, ended, stack) && Truthful(script, left, runs, ended)
              && Kept(cache0, runs0, log0, left, runs, ended, {})
              && Ends(script(path, runs0), AnswersOf(ended, runs0), r)
  {
    hide *;
    StillRunning(files, cache, log, stack, path);
    if r.Exception? {
      LeaveFailed(files, cache, log, stack, path);
      FailedTruthful(script, cache, runs, log, path);
      LeaveKept(cache0, runs0, log0, cache, runs, log, path, runs0, 0);
    } else {
      LeaveLoaded(files, cache, log, stack, path, runs0, r.value);
      LoadedTruthful(script, cache, runs, log, path, runs0, r.value);
      LeaveKept(cache0, runs0, log0, cache, runs, log, path, runs0, r.value);
      OneMoreAnswer(log, Finished(path, runs0, r.value), runs0);
    }
  }

  /** The answers of a body so far, and one more. */
  lemma AlongNext(steps: seq<Step>, answers: seq<Answer>, r: Result)
    requires Along(steps, answers) && |answers| < |steps|
    ensures var more := answers + [Answer(steps[|answers|].specifier, r)];
            && (r.Exports? || steps[|answers|].caught ==> Along(steps, more))
            && (r.Exception? && !steps[|answers|].caught ==> forall outcome :: Ends(Runs(steps, outcome), more, r))
  {
    var more := answers + [Answer(steps[|answers|].specifier, r)];
    assert more[..|more| - 1] == answers;
  }

  /** The running body of a file after its first requires, i of them. */
  ghost predicate Underway(cache0: Cache, runs0: nat, log0: seq<Event>, cache: Cache, runs: nat, log: seq<Event>,
                           path: Path, steps: seq<Step>, i: nat)
  {
    && Kept(cache0, runs0, log0, cache, runs, log, {path}) && runs > runs0 && i <= |steps|
    && |AnswersOf(log, runs0)| == i && Along(steps, AnswersOf(log, runs0))
    && forall e <- log :: e.Finished? ==> e.run != runs0
  }

  /** What the answer to the next require leads to. */
  lemma OneMoreStep(files: set<Path>, script: Script, cache0: Cache, runs0: nat, log0: seq<Event>, cache1: Cache, runs1: nat,
                    log1: seq<Event>, cache: Cache, runs: nat, log: seq<Event>, stack: seq<Path>, path: Path,
                    steps: seq<Step>, i: nat, r: Result)
    requires Underway(cache0, runs0, log0, cache1, runs1, log1, path, steps, i) && i < |steps|
    requires Kept(cache1, runs1, log1, cache, runs, log, {})
    requires Sound(files, cache, log, stack) && Truthful(script, cache, runs, log) && Given(steps[i].specifier, r, cache)
    ensures var more := log + [Answered(runs0, steps[i].specifier, r)];
            && Sound(files, cache, more, stack) && Truthful(script, cache, runs, more)
            && Kept(cache0, runs0, log0, cache, runs, more, {path}) && runs > runs0
            && (r.Exports? || steps[i].caught ==> Underway(cache0, runs0, log0, cache, runs, more, path, steps, i + 1))
            && (r.Exception? && !steps[i].caught ==> forall outcome :: Ends(Runs(steps, outcome), AnswersOf(more, runs0), r))
  {
    hide Sound, Kept, Truthful, Along, GoesOn, Ends, Given;
    var e, answers := Answered(runs0, steps[i].specifier, r), AnswersOf(log1, runs0);
    Nested(cache1, runs1, log1, cache, runs, log, runs0);
    KeptTwice(cache0, runs0, log0, cache1, runs1, log1, cache, runs, log, {path});
    AnswerKept(cache0, runs0, log0, cache, runs, log, {path}, e);
    NoteAnswer(files, cache, log, stack, e);
    NoteTruthful(script, cache, runs, log, e);
    OneMoreAnswer(log, e, runs0);
    AlongNext(steps, answers, r);
  }

  class Loader {
    /** The files that requests resolve to, and what each run of a file does. A body that reacts to the results of its
        requires is covered: for every course that it takes there is a script with just these steps. */
    const files: set<Path>
    const script: Script
    var cache: Cache
    var runs: nat
    ghost var log: seq<Event>

    constructor (files: set<Path>, script: Script)
      ensures this.files == files && this.script == script && cache == map[] && log == [] && runs == 0 && Valid([])
    {
      this.files, this.script := files, script;
      cache, runs, log := map[], 0, [];
    }

    ghost predicate Valid(stack: seq<Path>)
      reads this
    {
      Sound(files, cache, log, stack) && Truthful(script, cache, runs, log)
    }

    /** require_impl, after the request was resolved to a path. A new module gives what the run of its file ends with. */
    method Require(specifier: Specifier, ghost stack: seq<Path>) returns (r: Result)
      requires Valid(stack)
      modifies `cache, `runs, `log
      ensures Valid(stack) && Kept(old(cache), old(runs), old(log), cache, runs, log, {}) && Given(specifier, r, cache)
      ensures specifier.NotAString? ==> r == Exception(InvalidSpecifier) && cache == old(cache) && log == old(log)
      ensures specifier.Request? && specifier.path !in files ==> r == Exception(Unresolved) && cache == old(cache) && log == old(log)
      ensures specifier.Request? && specifier.path in stack ==> r == Exception(Circular) && cache == old(cache) && log == old(log)
      ensures specifier.Request? && specifier.path in old(cache) && specifier.path !in stack ==>
                r == Exports(old(cache)[specifier.path].exports) && cache == old(cache) && log == old(log)
      ensures specifier.Request? && specifier.path in files && specifier.path !in old(cache) ==>
                && Ends(script(specifier.path, old(runs)), AnswersOf(log, old(runs)), r)
                && match r
                   case Exports(value) => specifier.path in cache && cache[specifier.path] == Module(true, value)
                   case Exception(_) => specifier.path !in cache
      decreases |files - cache.Keys|, 1
    {
      hide Kept, Ends, Truthful;
      KeptSame(cache, runs, log, {});
      if specifier.NotAString? {
        return Exception(InvalidSpecifier);
      }
      var path := specifier.path;
      if path !in files {
        return Exception(Unresolved);
      }
      if path in cache {
        if !cache[path].loaded {
          return Exception(Circular);
        }
        return Exports(cache[path].exports);
      }
      r := RequireNew(path, stack);
    }

    /** The part of require_impl for a module that is not cached. */
    method RequireNew(path: Path, ghost stack: seq<Path>) returns (r: Result)
      requires Sound(files, cache, log, stack) && Truthful(script, cache, runs, log) && path in files && path !in cache
      modifies `cache, `runs, `log
      ensures Sound(files, cache, log, stack) && Truthful(script, cache, runs, log)
      ensures Kept(old(cache), old(runs), old(log), cache, runs, log, {})
      ensures Ends(script(path, old(runs)), AnswersOf(log, old(runs)), r)
      ensures match r
              case Exports(value) => path in cache && cache[path] == Module(true, value)
              case Exception(_) => path !in cache
      decreases |files - cache.Keys|, 0
    {
      hide *;
      Entering(files, script, cache, runs, log, stack, path);
      cache := cache[path := Module(false, 0)];
      ghost var run := runs;
      r := LoadModule(path, stack + [path]);
      Leaving(files, script, old(cache), old(runs), old(log), cache, runs, log, stack, path, r);
      if r.Exception? {
        cache := cache - {path};
        return;
      }
      cache := cache[path := Module(true, r.value)];
      log := log + [Finished(path, run, r.value)];
    }

    /** load_module and run_module. */
    method LoadModule(path: Path, ghost stack: seq<Path>) returns (r: Result)
      requires Sound(files, cache, log, stack) && Truthful(script, cache, runs, log) && path in stack
      modifies `cache, `runs, `log
      ensures Sound(files, cache, log, stack) && Truthful(script, cache, runs, log)
      ensures Kept(old(cache), old(runs), old(log), cache, runs, log, {path}) && runs > old(runs)
      ensures Ends(script(path, old(runs)), AnswersOf(log, old(runs)), r)
      decreases |files - cache.Keys|, 2
    {
      hide Sound, Kept, Truthful, Along, GoesOn, Given;
      ghost var run := runs;
      var body := script(path, runs);
      NextRun(script, cache, runs, log);
      Begin(cache, runs, log, path);
      runs := runs + 1;
      if body.Broken? {
        return Exception(NotLoadable);
      }
      StartBody(files, cache, log, stack, path, run);
      NoteTruthful(script, cache, runs, log, Started(path, run));
      OneMoreAnswer(log, Started(path, run), run);
      log := log + [Started(path, run)];
      NothingAsked(body.steps);
      hide Ends;
      var i := 0;
      while i < |body.steps|
        invariant 0 <= i <= |body.steps| && Valid(stack)
        invariant Underway(old(cache), run, old(log), cache, runs, log, path, body.steps, i)
        decreases |body.steps| - i
      {
        ghost var cache1, runs1, log1 := cache, runs, log;
        NoMoreLeft(files, old(cache), old(runs), old(log), cache, runs, log, {path});
        r := Require(body.steps[i].specifier, stack);
        OneMoreStep(files, script, old(cache), run, old(log), cache1, runs1, log1, cache, runs, log, stack, path, body.steps, i, r);
        log := log + [Answered(run, body.steps[i].specifier, r)];
        if r.Exception? && !body.steps[i].caught {
          return;
        }
        i := i + 1;
      }
      AllAsked(body.steps, AnswersOf(log, run), body.outcome);
      r := match body.outcome
        case Returns(exports) => Exports(exports)
        case Throws(value) => Exception(Thrown(value));
    }

    /** Requires from outside any module, one after another: afterwards no module is left half loaded. */
    method Session(requests: seq<Specifier>) returns (results: seq<Result>)
      requires Valid([])
      modifies `cache, `runs, `log
      ensures Valid([]) && Kept(old(cache), old(runs), old(log), cache, runs, log, {}) && |results| == |requests|
      ensures forall p <- cache :: cache[p].loaded
      ensures forall i | 0 <= i < |requests| :: Given(requests[i], results[i], cache)
      ensures forall i | 0 <= i < |requests| :: results[i].Exports? ==>
                requests[i].Request? && RanTo(requests[i].path, results[i], script, log)
    {
      hide Kept, Truthful, Sound;
      results := [];
      KeptSame(cache, runs, log, {});
      for i := 0 to |requests|
        invariant Valid([]) && Kept(old(cache), old(runs), old(log), cache, runs, log, {}) && |results| == i
        invariant forall k | 0 <= k < i :: Given(requests[k], results[k], cache)
      {
        ghost var cache1, runs1, log1 := cache, runs, log;
        var r := Require(requests[i], []);
        KeptTwice(old(cache), old(runs), old(log), cache1, runs1, log1, cache, runs, log, {});
        GivenKept(cache1, runs1, log1, cache, runs, log);
        results := results + [r];
      }
      AllLoaded(files, cache, log);
      LoadedRan(files, script, cache, runs, log);
    }
  }

  /** Some run of the file ended with these exports, all of its requires answered. */
  ghost predicate RanTo(path: Path, r: Result, script: Script, log: seq<Event>) {
    exists run :: Ends(script(path, run), AnswersOf(log, run), r)
  }

  lemma LoadedRan(files: set<Path>, script: Script, cache: Cache, runs: nat, log: seq<Event>)
    requires Sound(files, cache, log, []) && Truthful(script, cache, runs, log)
    ensures forall p <- cache :: RanTo(p, Exports(cache[p].exports), script, log)
  {
    hide Ends, Given;
    forall p | p in cache
      ensures RanTo(p, Exports(cache[p].exports), script, log)
    {
      assert p !in [] && Completed(p, cache[p].exports, log);
      var run :| Finished(p, run, cache[p].exports) in log;
      assert Ends(script(p, run), AnswersOf(log, run), Exports(cache[p].exports));
    }
  }

  lemma AllLoaded(files: set<Path>, cache: Cache, log: seq<Event>)
    requires Sound(files, cache, log, [])
    ensures forall p <- cache :: cache[p].loaded
  {
    hide Completed;
    assert forall p: Path :: p !in [];
  }

  lemma StillRunning(files: set<Path>, cache: Cache, log: seq<Event>, stack: seq<Path>, path: Path)
    requires Sound(files, cache, log, stack + [path])
    ensures path in cache && !cache[path].loaded && path !in stack
  {
    hide Completed;
    var full := stack + [path];
    assert full[|stack|] == path && forall i | 0 <= i < |stack| :: full[i] == stack[i];
  }

  /** The start of a run. */
  lemma Begin(cache: Cache, runs: nat, log: seq<Event>, path: Path)
    ensures Kept(cache, runs, log, cache, runs + 1, log, {path})
    ensures Kept(cache, runs, log, cache, runs + 1, log + [Started(path, runs)], {path})
  {}

  lemma NothingAsked(steps: seq<Step>)
    ensures Along(steps, [])
  {}

  lemma AllAsked(steps: seq<Step>, answers: seq<Answer>, outcome: Outcome)
    requires Along(steps, answers) && |answers| == |steps|
    ensures Ends(Runs(steps, outcome), answers,
                 match outcome case Returns(exports) => Exports(exports) case Throws(value) => Exception(Thrown(value)))
  {}

  /** What a nested require adds to the log is not of the run that made it. */
  lemma Nested(cache1: Cache, runs1: nat, log1: seq<Event>, cache: Cache, runs: nat, log: seq<Event>, run: nat)
    requires Kept(cache1, runs1, log1, cache, runs, log, {}) && run < runs1
    requires forall e <- log1 :: e.Finished? ==> e.run != run
    ensures AnswersOf(log, run) == AnswersOf(log1, run) && runs >= runs1 && forall e <- log :: e.Finished? ==> e.run != run
  {
    OtherRuns(log1, log, run);
  }

  lemma AnswerKept(cache0: Cache, runs0: nat, log0: seq<Event>, cache: Cache, runs: nat, log: seq<Event>, running: set<Path>, e: Event)
    requires Kept(cache0, runs0, log0, cache, runs, log, running) && e.Answered? && e.run >= runs0
    ensures Kept(cache0, runs0, log0, cache, runs, log + [e], running)
  {}

  lemma GivenKept(cache0: Cache, runs0: nat, log0: seq<Event>, cache: Cache, runs: nat, log: seq<Event>)
    requires Kept(cache0, runs0, log0, cache, runs, log, {})
    ensures forall r, specifier :: Given(specifier, r, cache0) ==> Given(specifier, r, cache)
  {}

  lemma FewerLeft(files: set<Path>, cached: set<Path>, path: Path)
    requires path in files && path !in cached
    ensures |files - (cached + {path})| < |files - cached|
  {
    assert files - cached == (files - (cached + {path})) + {path};
  }

  lemma NoMoreLeft(files: set<Path>, cache0: Cache, runs0: nat, log0: seq<Event>, cache: Cache, runs: nat, log: seq<Event>,
                   running: set<Path>)
    requires Kept(cache0, runs0, log0, cache, runs, log, running)
    ensures |files - cache.Keys| <= |files - cache0.Keys|
  {
    Smaller(files - cache.Keys, files - cache0.Keys);
  }

  lemma {:induction false} Smaller(a: set<Path>, b: set<Path>)
    requires a <= b
    ensures |a| <= |b|
  {
    assert b == a + (b - a);
  }
}
