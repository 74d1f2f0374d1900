/** The execution engine of task.go as functions over an explicit state: what
    RunTask, runDeps, runCommand and getEnviron return, and what process
    environment and record of external commands they leave behind. The class
    in module Execution runs the same steps imperatively and is proved equal
    to these functions. */
module Semantics {
  import opened Taskfile
  import opened ProcessEnv
  import opened Text
  import Freshness

  /** A resolved variable scope, as handleVariables returns it. */
  type Vars = map<string, string>

  /** The external commands run so far, oldest first. */
  type History = seq<Invocation>

  /** order lists every key of keys exactly once. */
  predicate IsEnumeration(order: seq<string>, keys: set<string>) {
    (forall i, j :: 0 <= i < j < |order| ==> order[i] != order[j])
    && (forall i :: 0 <= i < |order| ==> order[i] in keys)
    && (forall k :: k in keys ==> k in order)
  }

  ghost function SomeEnumeration(keys: set<string>): (r: seq<string>)
    ensures IsEnumeration(r, keys)
  {
    if keys == {} then []
    else
      var k :| k in keys;
      [k] + SomeEnumeration(keys - {k})
  }

  /** The order in which Go's `range` visits a map's keys: unspecified, and
      possibly different from one loop to the next, so it is an input that
      may depend on everything run so far. */
  type KeyOrder = f: (History, map<string, string>) -> seq<string>
    | forall h, m :: IsEnumeration(f(h, m), m.Keys)
    ghost witness (h: History, m: map<string, string>) => SomeEnumeration(m.Keys)

  /** The collaborators of the engine whose code is not part of this model. */
  datatype World = World(
    replaceVariables: (string, Vars) -> Result<string>,
      // ReplaceVariables(template, vars)
    handleVariables: (map<string, string>, Environment, History) -> Result<Vars>,
      // t.handleVariables(): the task's Vars resolved against the environment;
      // dynamic variables run shell commands, whose output may depend on
      // the files the commands run so far have left
    runCommand: (History, Environment, Invocation) -> Result<string>,
      // execext.RunCommand: the command's standard output, or its error; it
      // sees the process environment, which a command inherits when its
      // Invocation carries no environment of its own
    sourcesMaxTime: (seq<string>, History) -> Result<int>,
      // getPatternsMaxTime(t.Sources) on the files as the commands left them
    generatesMinTime: (seq<string>, History) -> Result<int>,
      // getPatternsMinTime(t.Generates)
    keyOrder: KeyOrder,
      // the visiting order of `range t.Env`
    hasCyclicDep: map<string, Task> -> bool)
      // HasCyclicDep(Tasks)

  /** The package globals RunTask reads: Tasks, Force, and the collaborators. */
  datatype Config = Config(tasks: map<string, Task>, force: bool, world: World)

  /** What a run changes: the process environment and the external commands run. */
  datatype State = State(env: Environment, trace: History)

  datatype Outcome = Outcome(status: Status, state: State)

  /** RunTask(name): look the task up, run its dependencies, skip it when it
      is up to date and not forced, otherwise run its commands in order.
      fuel bounds the nesting of dependencies and `^` sub-tasks. */
  function RunTask(c: Config, name: string, s: State, fuel: nat): (o: Outcome)
    decreases fuel, 0, 0
    ensures s.trace <= o.state.trace
    ensures UniqueKeys(s.env) ==> UniqueKeys(o.state.env)
  {
    if name !in c.tasks then Outcome(Failure(TaskNotFound(name)), s)
    else if fuel == 0 then Outcome(Failure(DepthExceeded(name)), s)
    else
      var t := c.tasks[name];
      var deps := RunDeps(c, t, s, fuel - 1);
      if deps.status.Failure? then deps
      else if !c.force && UpToDate(c.world, t, deps.state) then Outcome(Success, deps.state)
      else CmdsFrom(c, name, t, 0, deps.state, fuel - 1)
  }

  /** t.isUpToDate(), with the time lookups taken on the files as they are now. */
  predicate UpToDate(w: World, t: Task, s: State) {
    Freshness.IsUpToDate(t, w.sourcesMaxTime(t.sources, s.trace), w.generatesMinTime(t.generates, s.trace))
  }

  /** t.runDeps(): resolve the variables once, then run every dependency. */
  function RunDeps(c: Config, t: Task, s: State, fuel: nat): (o: Outcome)
    decreases fuel, 2, 0
    ensures s.trace <= o.state.trace
    ensures UniqueKeys(s.env) ==> UniqueKeys(o.state.env)
  {
    match c.world.handleVariables(t.vars, s.env, s.trace)
    case Err(e) => Outcome(Failure(e), s)
    case Ok(vars) => DepsFrom(c, t.deps, vars, 0, s, fuel)
  }

  /** The dependencies deps[i..], one after the other: substitute the name,
      run that task, and stop at the first failure. */
  function DepsFrom(c: Config, deps: seq<string>, vars: Vars, i: nat, s: State, fuel: nat): (o: Outcome)
    requires i <= |deps|
    decreases fuel, 1, |deps| - i
    ensures s.trace <= o.state.trace
    ensures UniqueKeys(s.env) ==> UniqueKeys(o.state.env)
  {
    if i == |deps| then Outcome(Success, s)
    else
      match c.world.replaceVariables(deps[i], vars)
      case Err(e) => Outcome(Failure(e), s)
      case Ok(dep) =>
        var d := RunTask(c, dep, s, fuel);
        if d.status.Failure? then d else DepsFrom(c, deps, vars, i + 1, d.state, fuel)
  }

  /** The command loop of RunTask from index i on: the first failing command
      ends it, with its error wrapped in the task's name. */
  function CmdsFrom(c: Config, name: string, t: Task, i: nat, s: State, fuel: nat): (o: Outcome)
    requires i <= |t.cmds|
    decreases fuel, 2, |t.cmds| - i
    ensures s.trace <= o.state.trace
    ensures UniqueKeys(s.env) ==> UniqueKeys(o.state.env)
  {
    if i == |t.cmds| then Outcome(Success, s)
    else
      var o := RunCommand(c, t, i, s, fuel);
      match o.status
      case Failure(e) => Outcome(Failure(TaskRunError(name, e)), o.state)
      case Success => CmdsFrom(c, name, t, i + 1, o.state, fuel)
  }

  /** t.runCommand(i): resolve the variables, substitute the command, then
      either run the named sub-task (a leading `^`) or spawn the command. */
  function RunCommand(c: Config, t: Task, i: nat, s: State, fuel: nat): (o: Outcome)
    requires i < |t.cmds|
    decreases fuel, 1, 0
    ensures s.trace <= o.state.trace
    ensures UniqueKeys(s.env) ==> UniqueKeys(o.state.env)
  {
    match c.world.handleVariables(t.vars, s.env, s.trace)
    case Err(e) => Outcome(Failure(e), s)
    case Ok(vars) =>
      match c.world.replaceVariables(t.cmds[i], vars)
      case Err(e) => Outcome(Failure(e), s)
      case Ok(cmd) =>
        if HasPrefix(cmd, "^") then RunTask(c, TrimPrefix(cmd, "^"), s, fuel)
        else Spawn(c.world, t, cmd, vars, s)
  }

  /** The shell path of runCommand: substitute the directory, build the
      environment, run the command once, and with a Set name store its
      trimmed output in the process environment. */
  function Spawn(w: World, t: Task, cmd: string, vars: Vars, s: State): (o: Outcome)
    ensures s.trace <= o.state.trace
    ensures UniqueKeys(s.env) ==> UniqueKeys(o.state.env)
  {
    match w.replaceVariables(t.dir, vars)
    case Err(e) => Outcome(Failure(e), s)
    case Ok(dir) =>
      match GetEnviron(w, t.env, vars, s)
      case Err(e) => Outcome(Failure(e), s)
      case Ok(envs) =>
        var call := Invocation(cmd, dir, envs, t.setVar != "");
        var trace := s.trace + [call];
        match w.runCommand(s.trace, s.env, call)
        case Err(e) => Outcome(Failure(e), State(s.env, trace))
        case Ok(stdout) =>
          if t.setVar == "" then Outcome(Success, State(s.env, trace))
          else Outcome(Success, State(Capture(s.env, t.setVar, stdout), trace))
  }

  /** os.Setenv(name, strings.TrimSpace(stdout)), whose error the source
      discards: a refused name leaves the environment as it was. */
  function Capture(env: Environment, name: string, stdout: string): (r: Environment)
    ensures UniqueKeys(env) ==> UniqueKeys(r)
  {
    match Setenv(env, name, TrimSpace(stdout))
    case None => env
    case Some(e) => e
  }

  /** t.getEnviron(vars): None for a nil Env; otherwise os.Environ() followed
      by one "key=value" entry per Env pair, in the order `range` visits them. */
  function GetEnviron(w: World, env: Option<map<string, string>>, vars: Vars, s: State): Result<Option<seq<string>>>
  {
    match env
    case None => Ok(None)
    case Some(m) =>
      match EnvEntries(w.replaceVariables, m, w.keyOrder(s.trace, m), vars, 0, Environ(s.env))
      case Err(e) => Err(e)
      case Ok(envs) => Ok(Some(envs))
  }

  /** The loop of getEnviron from the key order[i] on, envs holding what has
      been built so far: the value is substituted before the key, and the
      first failure ends the loop. */
  function EnvEntries(replace: (string, Vars) -> Result<string>, m: map<string, string>, order: seq<string>,
                      vars: Vars, i: nat, envs: seq<string>): Result<seq<string>>
    requires IsEnumeration(order, m.Keys) && i <= |order|
    decreases |order| - i
  {
    if i == |order| then Ok(envs)
    else
      var k := order[i];
      match replace(m[k], vars)
      case Err(e) => Err(e)
      case Ok(value) =>
        match replace(k, vars)
        case Err(e) => Err(e)
        case Ok(key) => EnvEntries(replace, m, order, vars, i + 1, envs + [key + "=" + value])
  }

  /** What Run ends with: every requested task ran; log.Fatal with an error;
      the cyclic-dependency abort; the not-found message for a requested name
      (Run returns without running anything); or the hand-over to the watcher. */
  datatype RunOutcome =
    | Completed
    | Fatal(error: Error)
    | CyclicDependency
    | MissingTask(name: string)
    | Watching(names: seq<string>)

  /** The names Run works on: the arguments, or "default" when there are none. */
  function Requested(args: seq<string>): (names: seq<string>)
    ensures names != []
    ensures args != [] ==> names == args
    ensures args == [] ==> names == ["default"]
  {
    if |args| == 0 then ["default"] else args
  }

  /** Run's final loop over the names from index i on: RunTask on each, and
      the first failure ends the process. */
  function RunAll(c: Config, names: seq<string>, i: nat, s: State, fuel: nat): (o: Outcome)
    requires i <= |names|
    decreases |names| - i
    ensures s.trace <= o.state.trace
  {
    if i == |names| then Outcome(Success, s)
    else
      var o := RunTask(c, names[i], s, fuel);
      if o.status.Failure? then o else RunAll(c, names, i + 1, o.state, fuel)
  }
}
