/**
 * run_e2e_tests: launching the generated commands one after the other,
 * counting passes and failures and logging to the console.
 *
 * Processes are not modelled: the i-th launched command exits with
 * exitCode(i) and prints output(i), and the `netexec --version` probe
 * prints versionOutput.
 */
module Runner {
  import opened Wrappers
  import opened Builtins
  import opened CliArgs
  import opened Generation

  /** One console line (or the status spinner) of a run. */
  datatype Event =
    | Status(count: nat, version: string)
    | Running(command: string)
    | Passed(command: string)
    | Failed(command: string)
    | ErrorDetected(output: string)
    | Results(output: string)
    | FailedHeader
    | FailedCommand(command: string)
    | Summary(passed: nat, failed: nat)

  /** Everything a run does that can be observed. */
  datatype Report = Report(
    launched: seq<string>,
    passed: nat,
    failed: nat,
    failures: seq<string>,
    log: seq<Event>)

  // ------------------------------------------------------------ one command

  /** On Linux every double quote of the command becomes a single quote. */
  function Prepare(task: string, isLinux: bool): string
  {
    if isLinux then ReplaceAll(task, "\"", "'") else task
  }

  /** On Linux the command keeps its length and each double quote, and only
      those, becomes a single quote; elsewhere it is launched as generated. */
  lemma PrepareQuotes(task: string, isLinux: bool)
    ensures |Prepare(task, isLinux)| == |task|
    ensures isLinux ==> forall k | 0 <= k < |task| ::
      Prepare(task, isLinux)[k] == if task[k] == '"' then '\'' else task[k]
    ensures !isLinux ==> Prepare(task, isLinux) == task
  {
    ReplaceChar(task, '"', '\'');
  }

  /** ASCII lower-casing, as str.lower() does on ASCII text. */
  function Lower(s: string): (r: string)
    ensures |r| == |s|
    ensures forall k | 0 <= k < |s| :: r[k] == LowerChar(s[k])
  {
    seq(|s|, k requires 0 <= k < |s| => LowerChar(s[k]))
  }

  function LowerChar(c: char): char {
    if 'A' <= c <= 'Z' then (c as int + 32) as char else c
  }

  /** The heuristic that reports an error in a command's output. */
  predicate Flagged(out: string) {
    Contains(Lower(out), "error") || Contains(Lower(out), "failure")
  }

  /** The console lines one command produces, in order. */
  function TaskLog(args: Args, command: string, code: int, out: string): seq<Event> {
    [Running(command)]
    + (if code == 0 then [Passed(Strip(command))] else [Failed(Strip(command))])
    + (if args.errors && Flagged(out) then [ErrorDetected(out)] else [])
    + (if args.verbose then [Results(out)] else [])
  }

  // ------------------------------------------------- the first n commands

  /** The commands as launched. */
  function Launched(tasks: seq<string>, isLinux: bool): (cs: seq<string>)
    ensures |cs| == |tasks|
    decreases |tasks|
  {
    if tasks == [] then []
    else Launched(tasks[..|tasks| - 1], isLinux) + [Prepare(tasks[|tasks| - 1], isLinux)]
  }

  /** The k-th launched command is the k-th task, prepared. */
  lemma {:induction false} LaunchedAt(tasks: seq<string>, isLinux: bool, k: nat)
    requires k < |tasks|
    ensures Launched(tasks, isLinux)[k] == Prepare(tasks[k], isLinux)
    decreases |tasks|
  {
    var init := tasks[..|tasks| - 1];
    if k < |init| {
      LaunchedAt(init, isLinux, k);
    }
  }

  /** How many of the first n commands exited with 0. */
  function PassedOf(n: nat, exitCode: nat -> int): nat {
    if n == 0 then 0 else PassedOf(n - 1, exitCode) + (if exitCode(n - 1) == 0 then 1 else 0)
  }

  /** How many of the first n commands exited with anything else. */
  function FailedOf(n: nat, exitCode: nat -> int): nat {
    if n == 0 then 0 else FailedOf(n - 1, exitCode) + (if exitCode(n - 1) != 0 then 1 else 0)
  }

  /** The stripped failing commands, in launch order. */
  function FailuresOf(cs: seq<string>, exitCode: nat -> int): seq<string>
    decreases |cs|
  {
    if cs == [] then []
    else
      FailuresOf(cs[..|cs| - 1], exitCode)
      + (if exitCode(|cs| - 1) != 0 then [Strip(cs[|cs| - 1])] else [])
  }

  /** The console lines of the launched commands cs, in order. */
  function LoopLog(args: Args, cs: seq<string>, exitCode: nat -> int, output: nat -> string): seq<Event>
    decreases |cs|
  {
    if cs == [] then []
    else
      LoopLog(args, cs[..|cs| - 1], exitCode, output)
      + TaskLog(args, cs[|cs| - 1], exitCode(|cs| - 1), output(|cs| - 1))
  }

  /** The lines after the loop: the failed commands when asked for, then the totals. */
  function Closing(args: Args, passed: nat, failed: nat, failures: seq<string>): seq<Event> {
    (if args.printFailures && failures != []
     then [FailedHeader] + seq(|failures|, k requires 0 <= k < |failures| => FailedCommand(failures[k]))
     else [])
    + [Summary(passed, failed)]
  }

  /** What running the tasks reports. */
  function Expected(args: Args, tasks: seq<string>, versionOutput: string, isLinux: bool,
                    exitCode: nat -> int, output: nat -> string): Report
  {
    var cs := Launched(tasks, isLinux);
    var passed := PassedOf(|tasks|, exitCode);
    var failed := FailedOf(|tasks|, exitCode);
    var failures := FailuresOf(cs, exitCode);
    Report(cs, passed, failed, failures,
      [Status(|tasks|, Strip(versionOutput))] + LoopLog(args, cs, exitCode, output)
      + Closing(args, passed, failed, failures))
  }

  // ------------------------------------------------------------ the loop

  /** Launching one more command extends the failures and the log at their ends. */
  lemma StepLog(args: Args, cs: seq<string>, c: string, exitCode: nat -> int, output: nat -> string)
    ensures (cs + [c])[..|cs|] == cs
    ensures LoopLog(args, cs + [c], exitCode, output)
      == LoopLog(args, cs, exitCode, output) + TaskLog(args, c, exitCode(|cs|), output(|cs|))
    ensures FailuresOf(cs + [c], exitCode)
      == FailuresOf(cs, exitCode) + (if exitCode(|cs|) != 0 then [Strip(c)] else [])
  {
    assert (cs + [c])[..|cs|] == cs;
  }

  /** Launching one more command adds it to exactly one of the two counts. */
  lemma StepCounts(i: nat, exitCode: nat -> int)
    ensures PassedOf(i + 1, exitCode) == PassedOf(i, exitCode) + (if exitCode(i) == 0 then 1 else 0)
    ensures FailedOf(i + 1, exitCode) == FailedOf(i, exitCode) + (if exitCode(i) != 0 then 1 else 0)
  {
  }

  /** Launching the next task extends the launched commands by its prepared form. */
  lemma StepLaunched(tasks: seq<string>, i: nat, isLinux: bool)
    requires i < |tasks|
    ensures Launched(tasks[..i + 1], isLinux) == Launched(tasks[..i], isLinux) + [Prepare(tasks[i], isLinux)]
  {
    assert tasks[..i + 1][..i] == tasks[..i];
  }

  /** One pass of the loop: the command as launched and the lines logged for it. */
  method Launch(args: Args, task: string, isLinux: bool, returnCode: int, text: string)
    returns (command: string, events: seq<Event>)
    ensures command == Prepare(task, isLinux)
    ensures events == TaskLog(args, command, returnCode, text)
  {
    command := task;
    if isLinux {
      command := ReplaceAll(command, "\"", "'");
    }
    events := [Running(command)];
    if returnCode == 0 {
      events := events + [Passed(Strip(command))];
    } else {
      events := events + [Failed(Strip(command))];
    }
    if args.errors {
      if Contains(Lower(text), "error") || Contains(Lower(text), "failure") {
        events := events + [ErrorDetected(text)];
      }
    }
    if args.verbose {
      events := events + [Results(text)];
    }
  }

  /** The body of run_e2e_tests after generate_commands. */
  method RunTasks(args: Args, tasks: seq<string>, versionOutput: string, isLinux: bool,
                  exitCode: nat -> int, output: nat -> string) returns (r: Report)
    ensures r == Expected(args, tasks, versionOutput, isLinux, exitCode, output)
  {
    var version := Strip(versionOutput);
    var loopLog: seq<Event> := [];
    var launched: seq<string> := [];
    var failures: seq<string> := [];
    var passed: nat := 0;
    var failed: nat := 0;
    var queue := tasks;
    var i := 0;
    while |queue| > 0
      invariant 0 <= i <= |tasks| && queue == tasks[i..]
      invariant launched == Launched(tasks[..i], isLinux)
      invariant passed == PassedOf(i, exitCode) && failed == FailedOf(i, exitCode)
      invariant failures == FailuresOf(launched, exitCode)
      invariant loopLog == LoopLog(args, launched, exitCode, output)
      decreases |queue|
    {
      assert |launched| == i && queue[0] == tasks[i];
      var task := queue[0];
      queue := queue[1..];
      var returnCode := exitCode(i);
      var text := output(i);
      var events;
      task, events := Launch(args, task, isLinux, returnCode, text);
      if returnCode == 0 {
        passed := passed + 1;
      } else {
        failures := failures + [Strip(task)];
        failed := failed + 1;
      }
      StepLog(args, launched, task, exitCode, output);
      StepLaunched(tasks, i, isLinux);
      StepCounts(i, exitCode);
      loopLog := loopLog + events;
      launched := launched + [task];
      i := i + 1;
    }
    assert tasks[..i] == tasks;
    assert launched == Launched(tasks, isLinux) && i == |tasks|;
    var closing := Close(args, passed, failed, failures);
    r := Report(launched, passed, failed, failures, [Status(|tasks|, version)] + loopLog + closing);
  }

  /** The lines logged after the last command. */
  method Close(args: Args, passed: nat, failed: nat, failures: seq<string>) returns (events: seq<Event>)
    ensures events == Closing(args, passed, failed, failures)
  {
    events := [];
    if args.printFailures && failures != [] {
      events := events + [FailedHeader];
      for j := 0 to |failures|
        invariant events == [FailedHeader] + seq(j, k requires 0 <= k < j => FailedCommand(failures[k]))
      {
        events := events + [FailedCommand(failures[j])];
      }
    }
    events := events + [Summary(passed, failed)];
  }

  /** run_e2e_tests(args), with the catalog's lines passed in; an IndexError of
      generate_commands ends it before any command is launched. */
  method RunE2ETests(args: Args, lines: seq<string>, versionOutput: string, isLinux: bool,
                     exitCode: nat -> int, output: nat -> string) returns (r: Result<Report, GenError>)
    ensures Commands(args, lines).Err? ==> r == Err(Commands(args, lines).error)
    ensures Commands(args, lines).Ok? ==>
      r == Ok(Expected(args, Commands(args, lines).value, versionOutput, isLinux, exitCode, output))
  {
    var tasks := GenerateCommands(args, lines);
    if tasks.Err? {
      return Err(tasks.error);
    }
    var report := RunTasks(args, tasks.value, versionOutput, isLinux, exitCode, output);
    return Ok(report);
  }

  // ------------------------------------------------------------ properties

  /** Every launched command is counted exactly once, as passed or as failed. */
  lemma {:induction false} CountsAddUp(n: nat, exitCode: nat -> int)
    ensures PassedOf(n, exitCode) + FailedOf(n, exitCode) == n
  {
    if n > 0 {
      CountsAddUp(n - 1, exitCode);
    }
  }

  /** There is one failure per failed launch. */
  lemma {:induction false} FailuresCount(cs: seq<string>, exitCode: nat -> int)
    ensures |FailuresOf(cs, exitCode)| == FailedOf(|cs|, exitCode)
    decreases |cs|
  {
    if cs != [] {
      FailuresCount(cs[..|cs| - 1], exitCode);
    }
  }

  /** The launch positions, below n, of the commands that failed. */
  function FailIdx(n: nat, exitCode: nat -> int): seq<nat> {
    if n == 0 then [] else FailIdx(n - 1, exitCode) + (if exitCode(n - 1) != 0 then [n - 1] else [])
  }

  lemma {:induction false} FailIdxBelow(n: nat, exitCode: nat -> int)
    ensures forall j | 0 <= j < |FailIdx(n, exitCode)| :: FailIdx(n, exitCode)[j] < n
  {
    if n > 0 {
      FailIdxBelow(n - 1, exitCode);
    }
  }

  lemma {:induction false} FailIdxIncreasing(n: nat, exitCode: nat -> int)
    ensures forall j, j' | 0 <= j < j' < |FailIdx(n, exitCode)| :: FailIdx(n, exitCode)[j] < FailIdx(n, exitCode)[j']
  {
    if n > 0 {
      FailIdxIncreasing(n - 1, exitCode);
      FailIdxBelow(n - 1, exitCode);
    }
  }

  lemma {:induction false} FailIdxMembers(n: nat, exitCode: nat -> int)
    ensures forall k | 0 <= k < n :: k in FailIdx(n, exitCode) <==> exitCode(k) != 0
  {
    if n > 0 {
      FailIdxMembers(n - 1, exitCode);
      FailIdxBelow(n - 1, exitCode);
      assert n - 1 !in FailIdx(n - 1, exitCode);
    }
  }

  lemma {:induction false} FailuresAtIdx(cs: seq<string>, exitCode: nat -> int)
    ensures |FailuresOf(cs, exitCode)| == |FailIdx(|cs|, exitCode)|
    ensures forall j | 0 <= j < |FailIdx(|cs|, exitCode)| ::
      FailIdx(|cs|, exitCode)[j] < |cs| && FailuresOf(cs, exitCode)[j] == Strip(cs[FailIdx(|cs|, exitCode)[j]])
    decreases |cs|
  {
    FailIdxBelow(|cs|, exitCode);
    if cs != [] {
      var last := |cs| - 1;
      var init := cs[..last];
      FailuresAtIdx(init, exitCode);
      var fs, ps := FailuresOf(init, exitCode), FailIdx(last, exitCode);
      var tail := if exitCode(last) != 0 then [last] else [];
      assert FailIdx(|cs|, exitCode) == ps + tail;
      assert FailuresOf(cs, exitCode) == fs + (if exitCode(last) != 0 then [Strip(cs[last])] else []);
      forall j | 0 <= j < |FailIdx(|cs|, exitCode)|
        ensures FailuresOf(cs, exitCode)[j] == Strip(cs[FailIdx(|cs|, exitCode)[j]])
      {
        if j < |ps| {
          assert FailuresOf(cs, exitCode)[j] == fs[j] && FailIdx(|cs|, exitCode)[j] == ps[j];
          assert init[ps[j]] == cs[ps[j]];
        }
      }
    }
  }

  /** The failures are the failing commands, stripped, in launch order: the
      j-th failure comes from the idx[j]-th launch, and a launch is among them
      iff its exit code is not 0. */
  lemma FailuresAre(cs: seq<string>, exitCode: nat -> int) returns (idx: seq<nat>)
    ensures |FailuresOf(cs, exitCode)| == |idx|
    ensures forall j | 0 <= j < |idx| :: idx[j] < |cs| && FailuresOf(cs, exitCode)[j] == Strip(cs[idx[j]])
    ensures forall j, j' | 0 <= j < j' < |idx| :: idx[j] < idx[j']
    ensures forall k | 0 <= k < |cs| :: k in idx <==> exitCode(k) != 0
  {
    idx := FailIdx(|cs|, exitCode);
    FailuresAtIdx(cs, exitCode);
    FailIdxIncreasing(|cs|, exitCode);
    FailIdxMembers(|cs|, exitCode);
  }

  /** A command's Running line is logged before its outcome and before every
      later command: the log of the first k+1 commands extends that of the
      first k by its Running line, and each log extends the shorter ones. */
  lemma {:induction false} RunningFirst(args: Args, cs: seq<string>, exitCode: nat -> int, output: nat -> string, k: nat)
    requires k < |cs|
    ensures LoopLog(args, cs[..k], exitCode, output) + [Running(cs[k])]
      <= LoopLog(args, cs, exitCode, output)
    decreases |cs|
  {
    var last := |cs| - 1;
    var init := cs[..last];
    var t := TaskLog(args, cs[last], exitCode(last), output(last));
    assert LoopLog(args, cs, exitCode, output) == LoopLog(args, init, exitCode, output) + t;
    if k == last {
      assert init == cs[..k];
      assert t[0] == Running(cs[k]);
    } else {
      assert init[..k] == cs[..k] && init[k] == cs[k];
      RunningFirst(args, init, exitCode, output, k);
    }
  }

  /** Only the closing lines can hold the failed-commands header. */
  lemma {:induction false} NoHeaderInLoop(args: Args, cs: seq<string>, exitCode: nat -> int, output: nat -> string)
    ensures FailedHeader !in LoopLog(args, cs, exitCode, output)
    decreases |cs|
  {
    if cs != [] {
      NoHeaderInLoop(args, cs[..|cs| - 1], exitCode, output);
    }
  }

  /** w occurs at position i of out when case is ignored. */
  predicate MentionsAt(out: string, w: string, i: int) {
    0 <= i <= |out| - |w| && Lower(out[i..i + |w|]) == w
  }

  /** Searching the lower-cased text finds exactly the case-insensitive occurrences. */
  lemma LowerOccurs(out: string, w: string, i: int)
    ensures OccursAt(Lower(out), w, i) <==> MentionsAt(out, w, i)
  {
    if 0 <= i <= |out| - |w| {
      assert Lower(out)[i..i + |w|] == Lower(out[i..i + |w|]);
    }
  }

  /** The heuristic is a case-insensitive search: it fires iff the output holds
      "error" or "failure" in any mix of upper and lower case. */
  lemma FlaggedIff(out: string)
    ensures Flagged(out) <==>
      (exists i :: MentionsAt(out, "error", i)) || (exists i :: MentionsAt(out, "failure", i))
  {
    ContainsIff(Lower(out), "error");
    ContainsIff(Lower(out), "failure");
    forall i ensures OccursAt(Lower(out), "error", i) <==> MentionsAt(out, "error", i) {
      LowerOccurs(out, "error", i);
    }
    forall i ensures OccursAt(Lower(out), "failure", i) <==> MentionsAt(out, "failure", i) {
      LowerOccurs(out, "failure", i);
    }
  }

  /** What a run reports: every task launched once, the counts adding up to
      the number of tasks, one failure per failed command, the failed-commands
      header exactly when asked for and something failed, and the totals last. */
  lemma ReportShape(args: Args, tasks: seq<string>, versionOutput: string, isLinux: bool,
                    exitCode: nat -> int, output: nat -> string)
    ensures var rep := Expected(args, tasks, versionOutput, isLinux, exitCode, output);
      && |rep.launched| == |tasks|
      && rep.passed + rep.failed == |tasks|
      && |rep.failures| == rep.failed
      && rep.log[0] == Status(|tasks|, Strip(versionOutput))
      && rep.log[|rep.log| - 1] == Summary(rep.passed, rep.failed)
      && (FailedHeader in rep.log <==> args.printFailures && rep.failed > 0)
  {
    var rep := Expected(args, tasks, versionOutput, isLinux, exitCode, output);
    CountsAddUp(|tasks|, exitCode);
    FailuresCount(rep.launched, exitCode);
    NoHeaderInLoop(args, rep.launched, exitCode, output);
    var front := [Status(|tasks|, Strip(versionOutput))] + LoopLog(args, rep.launched, exitCode, output);
    var closing := Closing(args, rep.passed, rep.failed, rep.failures);
    assert rep.log == front + closing;
    assert FailedHeader in rep.log <==> FailedHeader in closing;
  }

  /** On Linux no launched command holds a double quote any more, and a
      command without one is launched exactly as generated. */
  lemma LinuxQuotes(task: string)
    ensures '"' !in Prepare(task, true)
    ensures '"' !in task ==> Prepare(task, true) == task
  {
    PrepareQuotes(task, true);
    var c := Prepare(task, true);
    forall k | 0 <= k < |c| ensures c[k] != '"' {
    }
  }

  /** An upper-case ERROR is reported. */
  lemma UpperCaseFlagged()
    ensures Flagged("ERROR")
  {
    assert MentionsAt("ERROR", "error", 0);
    FlaggedIff("ERROR");
  }
}
