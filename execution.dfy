/** The package-level state of task.go and the functions that act on it, as
    a class: Tasks, Force and Watch are fields, and so are the process
    environment and the record of external commands that the run changes.
    RunTask, RunCommands, RunDeps, RunCommand and GetEnviron are proved equal
    to the matching functions of module Semantics; FirstMissingTask is
    specified directly, and Run case by case, its final loop equal to
    Semantics.RunAll. */
module Execution {
  import opened Taskfile
  import opened ProcessEnv
  import opened Text
  import opened Semantics

  class Engine {
    var tasks: map<string, Task>
    var force: bool
    var watch: bool
    const world: World
    var env: Environment
    var trace: History

    /** The globals RunTask reads. */
    function Cfg(): Config
      reads this
    {
      Config(tasks, force, world)
    }

    /** What a run changes. */
    function Now(): State
      reads this
    {
      State(env, trace)
    }

    /** The process at start-up: the flags as parsed, no task read yet, the
        inherited environment, nothing run. Go's runtime drops later
        duplicates of a name when it first copies the environment, so the
        inherited list has one entry per name. */
    constructor (world: World, env: Environment, force: bool, watch: bool)
      requires UniqueKeys(env)
      ensures this.tasks == map[] && this.force == force && this.watch == watch
      ensures this.env == env && this.trace == [] && this.world == world
    {
      this.tasks := map[];
      this.force := force;
      this.watch := watch;
      this.world := world;
      this.env := env;
      this.trace := [];
    }

    /** Run's existence check: the first requested name with no task, if any. */
    method FirstMissingTask(names: seq<string>) returns (missing: Option<string>)
      ensures missing.None? <==> forall j :: 0 <= j < |names| ==> names[j] in tasks
      ensures missing.Some? ==>
                exists j :: 0 <= j < |names| && names[j] == missing.value && names[j] !in tasks
                            && forall i :: 0 <= i < j ==> names[i] in tasks
    {
      var j := 0;
      while j < |names|
        invariant j <= |names|
        invariant forall i :: 0 <= i < j ==> names[i] in tasks
      {
        if names[j] !in tasks {
          return Some(names[j]);
        }
        j := j + 1;
      }
      return None;
    }

    /** Run: read the registry, refuse a cyclic one, check every requested
        name (the arguments, or "default"), then either hand the names to the
        watcher or run each in turn, the first failure ending the process. */
    method Run(args: seq<string>, parsed: Result<map<string, Task>>, fuel: nat) returns (r: RunOutcome)
      modifies this`tasks, this`env, this`trace
      ensures parsed.Err? ==> r == Fatal(parsed.error) && tasks == old(tasks) && Now() == old(Now())
      ensures parsed.Ok? ==> tasks == parsed.value
      ensures parsed.Ok? && world.hasCyclicDep(parsed.value) ==> r == CyclicDependency
      ensures r.MissingTask? ==> r.name in Requested(args) && r.name !in tasks
      ensures r.MissingTask? ==>
                exists j :: 0 <= j < |Requested(args)| && Requested(args)[j] == r.name
                            && forall i :: 0 <= i < j ==> Requested(args)[i] in tasks
      ensures parsed.Ok? && !world.hasCyclicDep(parsed.value) ==>
                (r.MissingTask? <==> exists a :: a in Requested(args) && a !in parsed.value)
      ensures !r.Completed? && !r.Fatal? ==> Now() == old(Now())
      ensures parsed.Ok? && !world.hasCyclicDep(parsed.value) && (forall a :: a in Requested(args) ==> a in tasks) ==>
                if watch then r == Watching(Requested(args)) && Now() == old(Now())
                else
                  var o := RunAll(Cfg(), Requested(args), 0, old(Now()), fuel);
                  Now() == o.state && r == (if o.status.Success? then Completed else Fatal(o.status.error))
    {
      var names := Requested(args);
      if parsed.Err? {
        return Fatal(parsed.error);
      }
      tasks := parsed.value;
      if world.hasCyclicDep(tasks) {
        return CyclicDependency;
      }
      var missing := FirstMissingTask(names);
      if missing.Some? {
        return MissingTask(missing.value);
      }
      if watch {
        return Watching(names);
      }
      ghost var start := Now();
      var i := 0;
      while i < |names|
        invariant i <= |names| && tasks == parsed.value
        invariant RunAll(Cfg(), names, 0, start, fuel) == RunAll(Cfg(), names, i, Now(), fuel)
      {
        var status := RunTask(names[i], fuel);
        if status.Failure? {
          return Fatal(status.error);
        }
        i := i + 1;
      }
      return Completed;
    }

    /** RunTask(name). */
    method RunTask(name: string, fuel: nat) returns (status: Status)
      modifies this`env, this`trace
      decreases fuel, 0, 0
      ensures Outcome(status, Now()) == Semantics.RunTask(Cfg(), name, old(Now()), fuel)
    {
      if name !in tasks {
        return Failure(TaskNotFound(name));
      }
      if fuel == 0 {
        return Failure(DepthExceeded(name));
      }
      var t := tasks[name];
      ghost var deps := Semantics.RunDeps(Cfg(), t, Now(), fuel - 1);
      assert Semantics.RunTask(Cfg(), name, Now(), fuel) ==
             if deps.status.Failure? then deps
             else if !force && UpToDate(world, t, deps.state) then Outcome(Success, deps.state)
             else CmdsFrom(Cfg(), name, t, 0, deps.state, fuel - 1);
      status := RunDeps(t, fuel - 1);
      if status.Failure? {
        return;
      }
      if !force && UpToDate(world, t, Now()) {
        return Success;
      }
      status := RunCommands(name, t, fuel - 1);
    }

    /** RunTask's command loop: t's commands in order, the first failure
        wrapped with the task name ending it. */
    method RunCommands(name: string, t: Task, fuel: nat) returns (status: Status)
      modifies this`env, this`trace
      decreases fuel, 2, 1
      ensures Outcome(status, Now()) == CmdsFrom(Cfg(), name, t, 0, old(Now()), fuel)
    {
      ghost var start := Now();
      var i := 0;
      while i < |t.cmds|
        invariant i <= |t.cmds|
        invariant CmdsFrom(Cfg(), name, t, 0, start, fuel) == CmdsFrom(Cfg(), name, t, i, Now(), fuel)
      {
        var result := RunCommand(t, i, fuel);
        if result.Failure? {
          return Failure(TaskRunError(name, result.error));
        }
        i := i + 1;
      }
      return Success;
    }

    /** t.runDeps(): the dependencies one after the other, in declared order. */
    method RunDeps(t: Task, fuel: nat) returns (status: Status)
      modifies this`env, this`trace
      decreases fuel, 2, 0
      ensures Outcome(status, Now()) == Semantics.RunDeps(Cfg(), t, old(Now()), fuel)
    {
      var resolved := world.handleVariables(t.vars, env, trace);
      if resolved.Err? {
        return Failure(resolved.error);
      }
      var vars := resolved.value;
      ghost var start := Now();
      var i := 0;
      while i < |t.deps|
        invariant i <= |t.deps|
        invariant Semantics.RunDeps(Cfg(), t, start, fuel) == DepsFrom(Cfg(), t.deps, vars, i, Now(), fuel)
      {
        var dep := world.replaceVariables(t.deps[i], vars);
        if dep.Err? {
          return Failure(dep.error);
        }
        status := RunTask(dep.value, fuel);
        if status.Failure? {
          return;
        }
        i := i + 1;
      }
      return Success;
    }

    /** t.runCommand(i). */
    method RunCommand(t: Task, i: nat, fuel: nat) returns (status: Status)
      requires i < |t.cmds|
      modifies this`env, this`trace
      decreases fuel, 1, 0
      ensures Outcome(status, Now()) == Semantics.RunCommand(Cfg(), t, i, old(Now()), fuel)
    {
      var resolved := world.handleVariables(t.vars, env, trace);
      if resolved.Err? {
        return Failure(resolved.error);
      }
      var vars := resolved.value;
      var c := world.replaceVariables(t.cmds[i], vars);
      if c.Err? {
        return Failure(c.error);
      }
      var cmd := c.value;
      if HasPrefix(cmd, "^") {
        cmd := TrimPrefix(cmd, "^");
        status := RunTask(cmd, fuel);
        return;
      }
      var dir := world.replaceVariables(t.dir, vars);
      if dir.Err? {
        return Failure(dir.error);
      }
      var envs := GetEnviron(t, vars);
      if envs.Err? {
        return Failure(envs.error);
      }
      var call := Invocation(cmd, dir.value, envs.value, t.setVar != "");
      var out := world.runCommand(trace, env, call);
      trace := trace + [call];
      if out.Err? {
        return Failure(out.error);
      }
      if t.setVar != "" {
        var updated := Setenv(env, t.setVar, TrimSpace(out.value));
        if updated.Some? {
          env := updated.value;
        }
      }
      return Success;
    }

    /** t.getEnviron(vars): the ambient environment, then the task's Env
        pairs in the order `range` visits them. */
    method GetEnviron(t: Task, vars: Vars) returns (r: Result<Option<seq<string>>>)
      ensures r == Semantics.GetEnviron(world, t.env, vars, Now())
    {
      if t.env.None? {
        return Ok(None);
      }
      var m := t.env.value;
      var envs := Environ(env);
      var order := world.keyOrder(trace, m);
      var i := 0;
      while i < |order|
        invariant i <= |order|
        invariant EnvEntries(world.replaceVariables, m, order, vars, 0, Environ(env))
                  == EnvEntries(world.replaceVariables, m, order, vars, i, envs)
      {
        var k := order[i];
        var value := world.replaceVariables(m[k], vars);
        if value.Err? {
          return Err(value.error);
        }
        var key := world.replaceVariables(k, vars);
        if key.Err? {
          return Err(key.error);
        }
        envs := envs + [key.value + "=" + value.value];
        i := i + 1;
      }
      return Ok(Some(envs));
    }
  }
}
