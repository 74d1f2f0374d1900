/** Properties of the execution engine, stated over the functions of module
    Semantics. */
module Properties {
  import opened Taskfile
  import opened ProcessEnv
  import opened Text
  import Freshness
  import opened Semantics

  // ---------------------------------------------------------------------
  // RunTask

  /** A name missing from the registry fails with that name, before any
      dependency, freshness check or command, and changes nothing. */
  lemma MissingTaskRunsNothing(c: Config, name: string, s: State, fuel: nat)
    requires name !in c.tasks
    ensures RunTask(c, name, s, fuel) == Outcome(Failure(TaskNotFound(name)), s)
  {
  }

  /** When the dependencies fail, the task fails with their error and leaves
      exactly the state they left: none of its own commands runs. */
  lemma FailedDependencyStopsTask(c: Config, name: string, s: State, fuel: nat)
    requires name in c.tasks && fuel > 0
    requires RunDeps(c, c.tasks[name], s, fuel - 1).status.Failure?
    ensures RunTask(c, name, s, fuel) == RunDeps(c, c.tasks[name], s, fuel - 1)
  {
  }

  /** Without Force, a task found up to date after its dependencies succeeds
      with no command of its own run. */
  lemma UpToDateTaskSkipsCommands(c: Config, name: string, s: State, fuel: nat)
    requires name in c.tasks && fuel > 0 && !c.force
    requires RunDeps(c, c.tasks[name], s, fuel - 1).status.Success?
    requires UpToDate(c.world, c.tasks[name], RunDeps(c, c.tasks[name], s, fuel - 1).state)
    ensures RunTask(c, name, s, fuel) == Outcome(Success, RunDeps(c, c.tasks[name], s, fuel - 1).state)
  {
  }

  /** c with different file-time lookups. */
  function WithClock(c: Config, maxTime: (seq<string>, History) -> Result<int>,
                     minTime: (seq<string>, History) -> Result<int>): Config
  {
    c.(world := c.world.(sourcesMaxTime := maxTime, generatesMinTime := minTime))
  }

  /** With Force set, the freshness check is never consulted: whatever the
      file times are, a run does the same, here and in every dependency and
      sub-task it reaches. */
  lemma {:induction false} ForcedRunIgnoresFreshness(c: Config, maxTime: (seq<string>, History) -> Result<int>,
                                                     minTime: (seq<string>, History) -> Result<int>,
                                                     name: string, s: State, fuel: nat)
    requires c.force
    decreases fuel, 0, 0
    ensures RunTask(c, name, s, fuel) == RunTask(WithClock(c, maxTime, minTime), name, s, fuel)
  {
    if name in c.tasks && fuel > 0 {
      var t := c.tasks[name];
      ForcedDepsIgnoreFreshness(c, maxTime, minTime, t, s, fuel - 1);
      var deps := RunDeps(c, t, s, fuel - 1);
      if deps.status.Success? {
        ForcedCmdsIgnoreFreshness(c, maxTime, minTime, name, t, 0, deps.state, fuel - 1);
      }
    }
  }

  lemma {:induction false} ForcedDepsIgnoreFreshness(c: Config, maxTime: (seq<string>, History) -> Result<int>,
                                                     minTime: (seq<string>, History) -> Result<int>,
                                                     t: Task, s: State, fuel: nat)
    requires c.force
    decreases fuel, 2, 0
    ensures RunDeps(c, t, s, fuel) == RunDeps(WithClock(c, maxTime, minTime), t, s, fuel)
  {
    match c.world.handleVariables(t.vars, s.env, s.trace)
    case Err(_) =>
    case Ok(vars) => ForcedDepsFromIgnoreFreshness(c, maxTime, minTime, t.deps, vars, 0, s, fuel);
  }

  lemma {:induction false} ForcedDepsFromIgnoreFreshness(c: Config, maxTime: (seq<string>, History) -> Result<int>,
                                                         minTime: (seq<string>, History) -> Result<int>,
                                                         deps: seq<string>, vars: Vars, i: nat, s: State, fuel: nat)
    requires c.force && i <= |deps|
    decreases fuel, 1, |deps| - i
    ensures DepsFrom(c, deps, vars, i, s, fuel) == DepsFrom(WithClock(c, maxTime, minTime), deps, vars, i, s, fuel)
  {
    if i < |deps| {
      match c.world.replaceVariables(deps[i], vars)
      case Err(_) =>
      case Ok(dep) =>
        ForcedRunIgnoresFreshness(c, maxTime, minTime, dep, s, fuel);
        var d := RunTask(c, dep, s, fuel);
        if d.status.Success? {
          ForcedDepsFromIgnoreFreshness(c, maxTime, minTime, deps, vars, i + 1, d.state, fuel);
        }
    }
  }

  lemma {:induction false} ForcedCmdsIgnoreFreshness(c: Config, maxTime: (seq<string>, History) -> Result<int>,
                                                     minTime: (seq<string>, History) -> Result<int>,
                                                     name: string, t: Task, i: nat, s: State, fuel: nat)
    requires c.force && i <= |t.cmds|
    decreases fuel, 2, |t.cmds| - i
    ensures CmdsFrom(c, name, t, i, s, fuel) == CmdsFrom(WithClock(c, maxTime, minTime), name, t, i, s, fuel)
  {
    if i < |t.cmds| {
      ForcedCommandIgnoresFreshness(c, maxTime, minTime, t, i, s, fuel);
      var o := RunCommand(c, t, i, s, fuel);
      if o.status.Success? {
        ForcedCmdsIgnoreFreshness(c, maxTime, minTime, name, t, i + 1, o.state, fuel);
      }
    }
  }

  lemma {:induction false} ForcedCommandIgnoresFreshness(c: Config, maxTime: (seq<string>, History) -> Result<int>,
                                                         minTime: (seq<string>, History) -> Result<int>,
                                                         t: Task, i: nat, s: State, fuel: nat)
    requires c.force && i < |t.cmds|
    decreases fuel, 1, 0
    ensures RunCommand(c, t, i, s, fuel) == RunCommand(WithClock(c, maxTime, minTime), t, i, s, fuel)
  {
    match c.world.handleVariables(t.vars, s.env, s.trace)
    case Err(_) =>
    case Ok(vars) =>
      match c.world.replaceVariables(t.cmds[i], vars)
      case Err(_) =>
      case Ok(cmd) =>
        if HasPrefix(cmd, "^") {
          ForcedRunIgnoresFreshness(c, maxTime, minTime, TrimPrefix(cmd, "^"), s, fuel);
        }
  }

  // ---------------------------------------------------------------------
  // The dependency loop

  /** How many dependencies from deps[i] on substitute and run successfully
      before the loop stops. */
  function DepsCompleted(c: Config, deps: seq<string>, vars: Vars, i: nat, s: State, fuel: nat): (n: nat)
    requires i <= |deps|
    decreases |deps| - i
    ensures i + n <= |deps|
  {
    if i == |deps| then 0
    else
      match c.world.replaceVariables(deps[i], vars)
      case Err(_) => 0
      case Ok(dep) =>
        var d := RunTask(c, dep, s, fuel);
        if d.status.Failure? then 0 else 1 + DepsCompleted(c, deps, vars, i + 1, d.state, fuel)
  }

  /** The state in which dependency k starts, when the loop starts at deps[i]
      in state s (past the first failure: the state that failure left). */
  function DepStart(c: Config, deps: seq<string>, vars: Vars, i: nat, s: State, fuel: nat, k: nat): State
    requires i <= k <= |deps|
    decreases k - i
  {
    if k == i then s
    else
      match c.world.replaceVariables(deps[i], vars)
      case Err(_) => s
      case Ok(dep) =>
        var d := RunTask(c, dep, s, fuel);
        if d.status.Failure? then d.state else DepStart(c, deps, vars, i + 1, d.state, fuel, k)
  }

  /** The dependency loop succeeds exactly when every dependency completed,
      ending in the state the last one left. A failure is that of the first
      dependency that did not complete, started in the state the ones before
      it left: its name's substitution error, or the failure of its run. */
  lemma {:induction false} DepsFromOutcome(c: Config, deps: seq<string>, vars: Vars, i: nat, s: State, fuel: nat)
    requires i <= |deps|
    decreases |deps| - i
    ensures var o := DepsFrom(c, deps, vars, i, s, fuel);
            var n := DepsCompleted(c, deps, vars, i, s, fuel);
            (o.status.Success? <==> i + n == |deps|)
            && (o.status.Success? ==> o.state == DepStart(c, deps, vars, i, s, fuel, |deps|))
            && (o.status.Failure? ==>
                  var start := DepStart(c, deps, vars, i, s, fuel, i + n);
                  match c.world.replaceVariables(deps[i + n], vars)
                  case Err(e) => o == Outcome(Failure(e), start)
                  case Ok(dep) => RunTask(c, dep, start, fuel).status.Failure? && o == RunTask(c, dep, start, fuel))
  {
    if i < |deps| {
      match c.world.replaceVariables(deps[i], vars)
      case Err(e) =>
        assert DepsCompleted(c, deps, vars, i, s, fuel) == 0;
        assert DepStart(c, deps, vars, i, s, fuel, i) == s;
      case Ok(dep) =>
        var d := RunTask(c, dep, s, fuel);
        if d.status.Failure? {
          assert DepsCompleted(c, deps, vars, i, s, fuel) == 0;
          assert DepStart(c, deps, vars, i, s, fuel, i) == s;
        } else {
          var n' := DepsCompleted(c, deps, vars, i + 1, d.state, fuel);
          assert DepsFrom(c, deps, vars, i, s, fuel) == DepsFrom(c, deps, vars, i + 1, d.state, fuel);
          assert DepsCompleted(c, deps, vars, i, s, fuel) == 1 + n';
          DepsFromOutcome(c, deps, vars, i + 1, d.state, fuel);
          assert DepStart(c, deps, vars, i, s, fuel, |deps|) == DepStart(c, deps, vars, i + 1, d.state, fuel, |deps|);
          if i + 1 + n' < |deps| {
            assert DepStart(c, deps, vars, i, s, fuel, i + 1 + n') == DepStart(c, deps, vars, i + 1, d.state, fuel, i + 1 + n');
          }
        }
    }
  }

  /** Every dependency the loop completed had its name substitute and its
      run succeed, from the state the ones before it left to the state the
      next one starts in. */
  lemma {:induction false} CompletedDepsSucceeded(c: Config, deps: seq<string>, vars: Vars, i: nat, s: State, fuel: nat,
                                                  j: nat)
    requires i <= |deps| && i <= j < i + DepsCompleted(c, deps, vars, i, s, fuel)
    decreases j - i
    ensures var start := DepStart(c, deps, vars, i, s, fuel, j);
            c.world.replaceVariables(deps[j], vars).Ok?
            && var d := RunTask(c, c.world.replaceVariables(deps[j], vars).value, start, fuel);
               d.status.Success? && d.state == DepStart(c, deps, vars, i, s, fuel, j + 1)
  {
    var dep := c.world.replaceVariables(deps[i], vars).value;
    var d := RunTask(c, dep, s, fuel);
    assert DepsCompleted(c, deps, vars, i, s, fuel) == 1 + DepsCompleted(c, deps, vars, i + 1, d.state, fuel);
    assert DepStart(c, deps, vars, i, s, fuel, j + 1) == DepStart(c, deps, vars, i + 1, d.state, fuel, j + 1);
    if j == i {
      assert DepStart(c, deps, vars, i + 1, d.state, fuel, i + 1) == d.state;
    } else {
      assert DepStart(c, deps, vars, i, s, fuel, j) == DepStart(c, deps, vars, i + 1, d.state, fuel, j);
      CompletedDepsSucceeded(c, deps, vars, i + 1, d.state, fuel, j);
    }
  }

  // ---------------------------------------------------------------------
  // The command loop

  /** How many commands the loop starts from index i on before it stops:
      all of them, or up to and including the first that fails. */
  function Attempted(c: Config, t: Task, i: nat, s: State, fuel: nat): (n: nat)
    requires i <= |t.cmds|
    decreases |t.cmds| - i
    ensures i + n <= |t.cmds|
  {
    if i == |t.cmds| then 0
    else
      var o := RunCommand(c, t, i, s, fuel);
      if o.status.Failure? then 1 else 1 + Attempted(c, t, i + 1, o.state, fuel)
  }

  /** The state in which the first failing command from index i on begins
      (the loop's final state when none fails). */
  function LastStart(c: Config, t: Task, i: nat, s: State, fuel: nat): State
    requires i <= |t.cmds|
    decreases |t.cmds| - i
  {
    if i == |t.cmds| then s
    else
      var o := RunCommand(c, t, i, s, fuel);
      if o.status.Failure? then s else LastStart(c, t, i + 1, o.state, fuel)
  }

  /** The outcome of the first failing command from index i on (success in
      the loop's final state when none fails). */
  function FirstFailure(c: Config, t: Task, i: nat, s: State, fuel: nat): Outcome
    requires i <= |t.cmds|
    decreases |t.cmds| - i
  {
    if i == |t.cmds| then Outcome(Success, s)
    else
      var o := RunCommand(c, t, i, s, fuel);
      if o.status.Failure? then o else FirstFailure(c, t, i + 1, o.state, fuel)
  }

  /** A failed loop is the first failing command's failure wrapped with the
      task name, in the state that command left. */
  lemma {:induction false} FailureWrapsFirstFailure(c: Config, name: string, t: Task, i: nat, s: State, fuel: nat)
    requires i <= |t.cmds|
    decreases |t.cmds| - i
    ensures var o := CmdsFrom(c, name, t, i, s, fuel);
            var f := FirstFailure(c, t, i, s, fuel);
            o.status.Failure? ==> f.status.Failure? && o == Outcome(Failure(TaskRunError(name, f.status.error)), f.state)
  {
    if i < |t.cmds| {
      var first := RunCommand(c, t, i, s, fuel);
      if first.status.Success? {
        assert CmdsFrom(c, name, t, i, s, fuel) == CmdsFrom(c, name, t, i + 1, first.state, fuel);
        assert FirstFailure(c, t, i, s, fuel) == FirstFailure(c, t, i + 1, first.state, fuel);
        FailureWrapsFirstFailure(c, name, t, i + 1, first.state, fuel);
      }
    }
  }

  /** The index of the first failing command from index i on (|t.cmds|
      when none fails). */
  function FailIndex(c: Config, t: Task, i: nat, s: State, fuel: nat): nat
    requires i <= |t.cmds|
    decreases |t.cmds| - i
  {
    if i == |t.cmds| then i
    else
      var o := RunCommand(c, t, i, s, fuel);
      if o.status.Failure? then i else FailIndex(c, t, i + 1, o.state, fuel)
  }

  /** The first failing command is command FailIndex, run in LastStart. */
  lemma {:induction false} FirstFailureAtFailIndex(c: Config, t: Task, i: nat, s: State, fuel: nat)
    requires i <= |t.cmds|
    decreases |t.cmds| - i
    ensures var f := FirstFailure(c, t, i, s, fuel);
            f.status.Failure? ==>
              FailIndex(c, t, i, s, fuel) < |t.cmds|
              && f == RunCommand(c, t, FailIndex(c, t, i, s, fuel), LastStart(c, t, i, s, fuel), fuel)
  {
    if i < |t.cmds| {
      var first := RunCommand(c, t, i, s, fuel);
      if first.status.Success? {
        assert FirstFailure(c, t, i, s, fuel) == FirstFailure(c, t, i + 1, first.state, fuel);
        assert FailIndex(c, t, i, s, fuel) == FailIndex(c, t, i + 1, first.state, fuel);
        assert LastStart(c, t, i, s, fuel) == LastStart(c, t, i + 1, first.state, fuel);
        FirstFailureAtFailIndex(c, t, i + 1, first.state, fuel);
      }
    }
  }

  /** When some command fails, FailIndex is the last command started. */
  lemma {:induction false} FailIndexIsLastStarted(c: Config, t: Task, i: nat, s: State, fuel: nat)
    requires i <= |t.cmds|
    decreases |t.cmds| - i
    ensures FailIndex(c, t, i, s, fuel) < |t.cmds| ==>
              FailIndex(c, t, i, s, fuel) == i + Attempted(c, t, i, s, fuel) - 1
  {
    if i < |t.cmds| {
      var first := RunCommand(c, t, i, s, fuel);
      if first.status.Success? {
        assert FailIndex(c, t, i, s, fuel) == FailIndex(c, t, i + 1, first.state, fuel);
        assert Attempted(c, t, i, s, fuel) == 1 + Attempted(c, t, i + 1, first.state, fuel);
        FailIndexIsLastStarted(c, t, i + 1, first.state, fuel);
      }
    }
  }

  /** The first failing command is command i + n - 1, the last one the loop
      starts, run in the state the commands before it left. */
  lemma FirstFailureIsLastStarted(c: Config, t: Task, i: nat, s: State, fuel: nat)
    requires i <= |t.cmds|
    ensures var f := FirstFailure(c, t, i, s, fuel);
            var n := Attempted(c, t, i, s, fuel);
            f.status.Failure? ==> n >= 1 && f == RunCommand(c, t, i + n - 1, LastStart(c, t, i, s, fuel), fuel)
  {
    FirstFailureAtFailIndex(c, t, i, s, fuel);
    FailIndexIsLastStarted(c, t, i, s, fuel);
  }

  /** A failed loop is the failure of its last started command, i + n - 1,
      run in the state the commands before it left, wrapped with the task
      name. */
  lemma FailureIsLastCommands(c: Config, name: string, t: Task, i: nat, s: State, fuel: nat)
    requires i <= |t.cmds|
    ensures var o := CmdsFrom(c, name, t, i, s, fuel);
            var n := Attempted(c, t, i, s, fuel);
            o.status.Failure? ==>
              n >= 1
              && var r := RunCommand(c, t, i + n - 1, LastStart(c, t, i, s, fuel), fuel);
                 r.status.Failure? && o == Outcome(Failure(TaskRunError(name, r.status.error)), r.state)
  {
    FailureWrapsFirstFailure(c, name, t, i, s, fuel);
    FirstFailureIsLastStarted(c, t, i, s, fuel);
  }

  /** Command i reads no other command of its task. */
  lemma CommandReadsOnlyItsOwnText(c: Config, t: Task, u: Task, i: nat, s: State, fuel: nat)
    requires i < |t.cmds| && i < |u.cmds| && u.cmds[i] == t.cmds[i] && u.(cmds := t.cmds) == t
    ensures RunCommand(c, u, i, s, fuel) == RunCommand(c, t, i, s, fuel)
  {
    assert u.vars == t.vars && u.dir == t.dir && u.env == t.env && u.setVar == t.setVar;
  }

  /** A loop that succeeds started every command from index i on. */
  lemma {:induction false} SuccessRanEveryCommand(c: Config, name: string, t: Task, i: nat, s: State, fuel: nat)
    requires i <= |t.cmds|
    decreases |t.cmds| - i
    ensures CmdsFrom(c, name, t, i, s, fuel).status.Success? ==> Attempted(c, t, i, s, fuel) == |t.cmds| - i
  {
    if i < |t.cmds| {
      var first := RunCommand(c, t, i, s, fuel);
      if first.status.Success? {
        assert CmdsFrom(c, name, t, i, s, fuel) == CmdsFrom(c, name, t, i + 1, first.state, fuel);
        assert Attempted(c, t, i, s, fuel) == 1 + Attempted(c, t, i + 1, first.state, fuel);
        SuccessRanEveryCommand(c, name, t, i + 1, first.state, fuel);
      }
    }
  }

  /** After a failure the commands past the failing one are never reached:
      replacing them by any others gives the same outcome. */
  lemma {:induction false} LaterCommandsUnreached(c: Config, name: string, t: Task, i: nat, s: State, fuel: nat,
                                                  later: seq<string>)
    requires i <= |t.cmds|
    decreases |t.cmds| - i
    ensures var o := CmdsFrom(c, name, t, i, s, fuel);
            var n := Attempted(c, t, i, s, fuel);
            o.status.Failure? ==> CmdsFrom(c, name, t.(cmds := t.cmds[..i + n] + later), i, s, fuel) == o
  {
    if i < |t.cmds| {
      var n := Attempted(c, t, i, s, fuel);
      var u := t.(cmds := t.cmds[..i + n] + later);
      assert u.cmds[i] == t.cmds[i] && u.(cmds := t.cmds) == t;
      CommandReadsOnlyItsOwnText(c, t, u, i, s, fuel);
      var first := RunCommand(c, t, i, s, fuel);
      if first.status.Success? {
        assert n == 1 + Attempted(c, t, i + 1, first.state, fuel);
        LaterCommandsUnreached(c, name, t, i + 1, first.state, fuel, later);
        assert CmdsFrom(c, name, t, i, s, fuel) == CmdsFrom(c, name, t, i + 1, first.state, fuel);
        assert CmdsFrom(c, name, u, i, s, fuel) == CmdsFrom(c, name, u, i + 1, first.state, fuel);
      }
    }
  }

  /** The loop succeeds only after running every command; a failure is the
      failing command's error wrapped with the task name, and the commands
      after the failing one are never reached: replacing them by any others
      gives the same outcome. */
  lemma FirstFailureEndsCommands(c: Config, name: string, t: Task, i: nat, s: State, fuel: nat, later: seq<string>)
    requires i <= |t.cmds|
    ensures var o := CmdsFrom(c, name, t, i, s, fuel);
            var n := Attempted(c, t, i, s, fuel);
            (o.status.Success? ==> n == |t.cmds| - i)
            && (o.status.Failure? ==>
                  n >= 1 && o.status.error.TaskRunError? && o.status.error.taskName == name
                  && (var r := RunCommand(c, t, i + n - 1, LastStart(c, t, i, s, fuel), fuel);
                      r.status.Failure? && o == Outcome(Failure(TaskRunError(name, r.status.error)), r.state))
                  && CmdsFrom(c, name, t.(cmds := t.cmds[..i + n] + later), i, s, fuel) == o)
  {
    SuccessRanEveryCommand(c, name, t, i, s, fuel);
    FailureIsLastCommands(c, name, t, i, s, fuel);
    LaterCommandsUnreached(c, name, t, i, s, fuel, later);
  }

  // ---------------------------------------------------------------------
  // runCommand

  /** A substituted command starting with `^` spawns nothing: one `^` is
      removed and the rest is run as a task name, and the task's Dir, Env
      and Set play no part. */
  lemma CaretCommandRunsSubTask(c: Config, t: Task, i: nat, s: State, fuel: nat, vars: Vars, cmd: string)
    requires i < |t.cmds|
    requires c.world.handleVariables(t.vars, s.env, s.trace) == Ok(vars)
    requires c.world.replaceVariables(t.cmds[i], vars) == Ok(cmd)
    requires cmd != [] && cmd[0] == '^'
    ensures RunCommand(c, t, i, s, fuel) == RunTask(c, cmd[1..], s, fuel)
    ensures forall dir, env, setVar ::
              RunCommand(c, t.(dir := dir, env := env, setVar := setVar), i, s, fuel) == RunTask(c, cmd[1..], s, fuel)
  {
    assert HasPrefix(cmd, "^") && TrimPrefix(cmd, "^") == cmd[1..];
  }

  /** The shell path runs exactly one external command. Its failure is the
      result and leaves the environment alone; on success a task without Set
      leaves the environment alone, and a task with Set has that variable
      hold the trimmed output afterwards, every other variable unchanged. */
  lemma SpawnOutcome(w: World, t: Task, cmd: string, vars: Vars, s: State,
                     dir: string, envs: Option<seq<string>>)
    requires w.replaceVariables(t.dir, vars) == Ok(dir)
    requires GetEnviron(w, t.env, vars, s) == Ok(envs)
    ensures var call := Invocation(cmd, dir, envs, t.setVar != "");
            var run := w.runCommand(s.trace, s.env, call);
            var o := Spawn(w, t, cmd, vars, s);
            o.state.trace == s.trace + [call]
            && (run.Err? ==> o.status == Failure(run.error) && o.state.env == s.env)
            && (run.Ok? ==> o.status == Success)
            && (run.Ok? && t.setVar == "" ==> o.state.env == s.env)
            && (run.Ok? && t.setVar != "" && ValidName(t.setVar) && ValidValue(TrimSpace(run.value)) ==>
                  Lookup(o.state.env, t.setVar) == Some(TrimSpace(run.value))
                  && forall k :: k != t.setVar ==> Lookup(o.state.env, k) == Lookup(s.env, k))
            && (run.Ok? && !(ValidName(t.setVar) && ValidValue(TrimSpace(run.value))) ==> o.state.env == s.env)
  {
    var call := Invocation(cmd, dir, envs, t.setVar != "");
    var run := w.runCommand(s.trace, s.env, call);
    if run.Ok? && t.setVar != "" && ValidName(t.setVar) && ValidValue(TrimSpace(run.value)) {
      var value := TrimSpace(run.value);
      AssignLookup(s.env, t.setVar, value, t.setVar);
      forall k | k != t.setVar
        ensures Lookup(Assign(s.env, t.setVar, value), k) == Lookup(s.env, k)
      {
        AssignLookup(s.env, t.setVar, value, k);
      }
    }
  }

  /** The innermost cause of a chain of wrapped errors. */
  function Innermost(e: Error): Error {
    if e.TaskRunError? then Innermost(e.cause) else e
  }

  /** `^` edges are not dependency edges: a task whose only command is `^`
      followed by its own name, which substitution leaves alone, never
      completes when it is forced or not up to date, however deep the
      nesting bound, and every attempt ends at the bound with nothing run. */
  lemma {:induction false} SelfCallingTaskNeverCompletes(c: Config, name: string, s: State, fuel: nat)
    requires name in c.tasks && c.tasks[name].deps == [] && c.tasks[name].cmds == ["^" + name]
    requires c.force || !UpToDate(c.world, c.tasks[name], s)
    requires c.world.handleVariables(c.tasks[name].vars, s.env, s.trace).Ok?
    requires forall vars :: c.world.replaceVariables("^" + name, vars) == Ok("^" + name)
    ensures var o := RunTask(c, name, s, fuel);
            o.status.Failure? && Innermost(o.status.error) == DepthExceeded(name) && o.state == s
  {
    if fuel > 0 {
      var t := c.tasks[name];
      var vars := c.world.handleVariables(t.vars, s.env, s.trace).value;
      assert RunDeps(c, t, s, fuel - 1) == Outcome(Success, s);
      assert HasPrefix("^" + name, "^") && TrimPrefix("^" + name, "^") == name;
      SelfCallingTaskNeverCompletes(c, name, s, fuel - 1);
      assert RunCommand(c, t, 0, s, fuel - 1) == RunTask(c, name, s, fuel - 1);
    }
  }

  // ---------------------------------------------------------------------
  // getEnviron

  /** The entry getEnviron appends for the pair key: value, if both
      substitutions succeed. */
  function EntryFor(replace: (string, Vars) -> Result<string>, vars: Vars, key: string, value: string): Option<string> {
    match replace(value, vars)
    case Err(_) => None
    case Ok(v) =>
      match replace(key, vars)
      case Err(_) => None
      case Ok(k) => Some(k + "=" + v)
  }

  /** An enumeration of a set is as long as the set is large. */
  lemma {:induction false} EnumerationLength(order: seq<string>, keys: set<string>)
    requires IsEnumeration(order, keys)
    ensures |order| == |keys|
  {
    if order == [] {
      assert forall k :: k in keys ==> false;
      assert keys == {};
    } else {
      var rest := order[1..];
      var others := keys - {order[0]};
      assert forall k :: k in others ==> k in rest by {
        forall k | k in others ensures k in rest {
          var i :| 0 <= i < |order| && order[i] == k;
          assert i != 0;
          assert rest[i - 1] == k;
        }
      }
      assert IsEnumeration(rest, others);
      EnumerationLength(rest, others);
    }
  }

  /** The getEnviron loop from order[i] on succeeds exactly when every
      remaining pair substitutes, and then appends one entry per key, in
      the visiting order, after what was built before. */
  lemma {:induction false} EnvEntriesShape(replace: (string, Vars) -> Result<string>, m: map<string, string>,
                                           order: seq<string>, vars: Vars, i: nat, envs: seq<string>)
    requires IsEnumeration(order, m.Keys) && i <= |order|
    decreases |order| - i
    ensures var r := EnvEntries(replace, m, order, vars, i, envs);
            (r.Ok? <==> forall j :: i <= j < |order| ==> EntryFor(replace, vars, order[j], m[order[j]]).Some?)
            && (r.Ok? ==>
                  |r.value| == |envs| + |order| - i && r.value[..|envs|] == envs
                  && forall j :: i <= j < |order| ==> EntryFor(replace, vars, order[j], m[order[j]]) == Some(r.value[|envs| + j - i]))
  {
    if i < |order| {
      var k := order[i];
      var entry := EntryFor(replace, vars, k, m[k]);
      if entry.Some? {
        var envs' := envs + [entry.value];
        EnvEntriesShape(replace, m, order, vars, i + 1, envs');
        var r := EnvEntries(replace, m, order, vars, i + 1, envs');
        assert EnvEntries(replace, m, order, vars, i, envs) == r;
        if r.Ok? {
          assert r.value[..|envs'|][..|envs|] == envs;
        }
      }
    }
  }

  /** Every pair of m substitutes. */
  predicate AllPairsSubstitute(replace: (string, Vars) -> Result<string>, vars: Vars, m: map<string, string>) {
    forall k :: k in m ==> EntryFor(replace, vars, k, m[k]).Some?
  }

  /** envs is ambient followed by the entry of each key of order, in that
      order. */
  predicate EntriesInOrder(replace: (string, Vars) -> Result<string>, vars: Vars, m: map<string, string>,
                           order: seq<string>, ambient: seq<string>, envs: seq<string>)
  {
    |envs| == |ambient| + |order| && envs[..|ambient|] == ambient
    && forall j :: 0 <= j < |order| ==>
         order[j] in m && EntryFor(replace, vars, order[j], m[order[j]]) == Some(envs[|ambient| + j])
  }

  /** envs is ambient followed by exactly one entry per pair of m, in some
      order of m's keys. */
  ghost predicate OneEntryPerPair(replace: (string, Vars) -> Result<string>, vars: Vars, m: map<string, string>,
                            ambient: seq<string>, envs: seq<string>)
  {
    |envs| == |ambient| + |m|
    && exists order :: IsEnumeration(order, m.Keys) && EntriesInOrder(replace, vars, m, order, ambient, envs)
  }

  lemma EnvEntriesCoverPairs(replace: (string, Vars) -> Result<string>, m: map<string, string>,
                             order: seq<string>, vars: Vars, ambient: seq<string>)
    requires IsEnumeration(order, m.Keys)
    ensures var r := EnvEntries(replace, m, order, vars, 0, ambient);
            r.Ok? ==> forall k :: k in m ==>
                        (exists j :: |ambient| <= j < |r.value| && EntryFor(replace, vars, k, m[k]) == Some(r.value[j]))
  {
    EnvEntriesShape(replace, m, order, vars, 0, ambient);
    var r := EnvEntries(replace, m, order, vars, 0, ambient);
    if r.Ok? {
      var envs := r.value;
      forall k | k in m
        ensures exists j :: |ambient| <= j < |envs| && EntryFor(replace, vars, k, m[k]) == Some(envs[j])
      {
        var j :| 0 <= j < |order| && order[j] == k;
        assert EntryFor(replace, vars, k, m[k]) == Some(envs[|ambient| + j]);
      }
    }
  }

  lemma EnvEntriesComeFromPairs(replace: (string, Vars) -> Result<string>, m: map<string, string>,
                                order: seq<string>, vars: Vars, ambient: seq<string>)
    requires IsEnumeration(order, m.Keys)
    ensures var r := EnvEntries(replace, m, order, vars, 0, ambient);
            r.Ok? ==> forall j :: |ambient| <= j < |r.value| ==>
                        (exists k :: k in m && EntryFor(replace, vars, k, m[k]) == Some(r.value[j]))
  {
    EnvEntriesShape(replace, m, order, vars, 0, ambient);
    var r := EnvEntries(replace, m, order, vars, 0, ambient);
    if r.Ok? {
      var envs := r.value;
      forall j | |ambient| <= j < |envs|
        ensures exists k :: k in m && EntryFor(replace, vars, k, m[k]) == Some(envs[j])
      {
        var k := order[j - |ambient|];
        assert EntryFor(replace, vars, k, m[k]) == Some(envs[j]);
      }
    }
  }

  /** The whole getEnviron loop over an enumeration of m's keys fails
      exactly when some pair of m does not substitute. */
  lemma EnvEntriesSucceedIffAllSubstitute(replace: (string, Vars) -> Result<string>, m: map<string, string>,
                                          order: seq<string>, vars: Vars, ambient: seq<string>)
    requires IsEnumeration(order, m.Keys)
    ensures EnvEntries(replace, m, order, vars, 0, ambient).Ok? <==> AllPairsSubstitute(replace, vars, m)
  {
    EnvEntriesShape(replace, m, order, vars, 0, ambient);
    if !EnvEntries(replace, m, order, vars, 0, ambient).Ok? {
      var j :| 0 <= j < |order| && EntryFor(replace, vars, order[j], m[order[j]]).None?;
      assert order[j] in m;
    }
  }

  /** When it succeeds, the whole getEnviron loop appends to the ambient list
      exactly one entry per pair of m. */
  lemma EnvEntriesOnePerPair(replace: (string, Vars) -> Result<string>, m: map<string, string>,
                             order: seq<string>, vars: Vars, ambient: seq<string>)
    requires IsEnumeration(order, m.Keys)
    ensures var r := EnvEntries(replace, m, order, vars, 0, ambient);
            r.Ok? ==> OneEntryPerPair(replace, vars, m, ambient, r.value)
  {
    var r := EnvEntries(replace, m, order, vars, 0, ambient);
    if r.Ok? {
      EnvEntriesShape(replace, m, order, vars, 0, ambient);
      EnumerationLength(order, m.Keys);
      assert |m| == |m.Keys|;
      assert EntriesInOrder(replace, vars, m, order, ambient, r.value);
    }
  }

  /** getEnviron: nil for a nil Env; otherwise it fails exactly when some
      pair does not substitute, and on success returns the ambient
      environment unchanged followed by exactly one "key=value" entry per
      Env pair, in some order. */
  lemma GetEnvironShape(w: World, env: Option<map<string, string>>, vars: Vars, s: State)
    ensures env.None? ==> GetEnviron(w, env, vars, s) == Ok(None)
    ensures env.Some? ==>
              var r := GetEnviron(w, env, vars, s);
              (r.Ok? <==> AllPairsSubstitute(w.replaceVariables, vars, env.value))
              && (r.Ok? ==> r.value.Some? && OneEntryPerPair(w.replaceVariables, vars, env.value, Environ(s.env), r.value.value))
  {
    if env.Some? {
      var order := w.keyOrder(s.trace, env.value);
      EnvEntriesSucceedIffAllSubstitute(w.replaceVariables, env.value, order, vars, Environ(s.env));
      EnvEntriesOnePerPair(w.replaceVariables, env.value, order, vars, Environ(s.env));
    }
  }
}
