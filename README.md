# Task runner execution engine, in Dafny

This project models the execution engine of a small dependency-aware task
runner (`task.go` of the Go `task` tool). A registry maps task names to
tasks. Each task has commands, dependencies, source and generated file
patterns, variables, an optional `Set` variable name and an optional
environment map. The engine decides:

- whether a named task runs at all (registry lookup),
- that its dependencies run first, and that any failure among them stops it,
- whether it may be skipped as up to date (unless `Force` is set),
- in what order its commands run, and how the first failure ends the loop,
- how each command is dispatched: a `^name` command runs another task, any
  other command goes to the shell,
- what environment the shell command gets, and how captured output is stored
  into the process environment.

Structure:

- `taskfile.dfy` (module `Taskfile`): tasks, errors, `Status` (Go's `error`
  return, nil or not), and `Invocation` (one call of the external command runner).
- `text.dfy` (module `Text`): `strings.HasPrefix`, `TrimPrefix`, `TrimSpace`.
- `process_env.dfy` (module `ProcessEnv`): the process environment as an
  ordered list of variables, with `os.Environ` and `os.Setenv`.
- `freshness.dfy` (module `Freshness`): the `isUpToDate` decision.
- `semantics.dfy` (module `Semantics`): the engine as functions over an
  explicit state, `State(env, trace)`. `env` is the process environment.
  `trace` is the list of external commands run so far. Code that is not part
  of this model is supplied as a `World` of functions: variable substitution,
  variable resolution, the command runner, the two file-time lookups, the
  visiting order of a Go map, and the cycle check. The command runner also
  receives the process environment, which a command inherits when its task
  has no `Env`, so a later command can read a variable an earlier `Set` stored.
- `properties.dfy` (module `Properties`): lemmas about those functions.
- `execution.dfy` (module `Execution`): class `Engine`. It holds the package
  globals (`Tasks`, `Force`, `Watch`) and the state the run changes. Its
  methods follow the Go functions step by step, with the same loops.
  `RunTask`, its command loop `RunCommands`, `RunDeps`, `RunCommand` and
  `GetEnviron` are proved equal to the matching functions of `Semantics`.
  `FirstMissingTask` is specified directly by the first requested name
  missing from the registry. `Run` is specified case by case, and its final
  loop is proved equal to `Semantics.RunAll`.

Recursion between `RunTask`, `runDeps` and `runCommand` is bounded by a
`fuel` argument. When the bound is reached, the model returns the error
`DepthExceeded`, which the source does not have.

Three facts about the source that the model keeps:

- `strings.TrimSpace` trims white space at both ends of captured output.
- `Run` returns before running any task if one requested name is missing.
- A task's dependencies are a list, and the model runs them in list order.

## Model

| member | source | states |
|---|---|---|
| `Text.TrimPrefix` | task.go:169-170 | with the prefix present, the prefix followed by the result is the command (exactly one `^` removed); otherwise the command is returned unchanged |
| `Text.TrimSpace` | task.go:207 | the stored value is a contiguous slice of the captured output that neither starts nor ends with white space, and everything cut off on either side is white space |
| `Text.TrimSpaceDropsNewline` | task.go:207 | captured output `hello` followed by a newline is stored as `hello` |
| `ProcessEnv.Lookup` | task.go:207 | a name has a value exactly when it is one of the environment's names |
| `ProcessEnv.Environ` | task.go:217 | `os.Environ()` gives one `key=value` string per variable, in the environment's order |
| `ProcessEnv.Assign` | task.go:207 | setting a variable adds its name to the names and nothing else, keeps one entry per name, and grows the list only for a new name |
| `ProcessEnv.Setenv` | task.go:207 | `os.Setenv` succeeds exactly for a non-empty name without `=` or NUL and a value without NUL, and then replaces or appends that variable |
| `ProcessEnv.AssignLookup` | task.go:207 | after setting, the name has the new value and every other name keeps its old value |
| `Freshness.UpToDateCases` | task.go:141-157 | not up to date when sources or generates is empty, when a lookup fails, or when a lookup gives the zero time; otherwise up to date exactly when the earliest generated time is strictly after the latest source time |
| `Freshness.LatestTime` | task.go:146-147 | the latest time is one of the matched times and at least every one of them; the zero time when none matched |
| `Freshness.EarliestTime` | task.go:151-152 | the earliest time is one of the matched times and at most every one of them; the zero time when none matched |
| `Freshness.UpToDateIffEveryOutputNewer` | task.go:141-157 | with real file times, a task is up to date exactly when both pattern lists are declared, both match files, and every generated file is strictly newer than every source file |
| `Semantics.RunTask` | task.go:88-109 | running a task only appends to the record of external commands, and an environment with one entry per name keeps that property |
| `Semantics.RunDeps` | task.go:111-139 | running the dependencies only appends to the record of commands and keeps one environment entry per name |
| `Semantics.DepsFrom` | task.go:119-137 | the dependency loop only appends to the record of commands and keeps one environment entry per name |
| `Semantics.CmdsFrom` | task.go:103-108 | the command loop only appends to the record of commands and keeps one environment entry per name |
| `Semantics.RunCommand` | task.go:159-210 | one command only appends to the record of commands and keeps one environment entry per name |
| `Semantics.Spawn` | task.go:177-209 | the shell path only appends to the record of commands and keeps one environment entry per name |
| `Semantics.Capture` | task.go:207 | storing captured output keeps one environment entry per name |
| `Semantics.Requested` | task.go:47-51 | the requested names are never empty: the arguments when given, `default` otherwise |
| `Semantics.RunAll` | task.go:80-84 | running the requested tasks only appends to the record of commands |
| `Properties.MissingTaskRunsNothing` | task.go:89-92 | a name missing from the registry fails with not-found carrying that name, and the state is unchanged: no dependency, no command, no environment change |
| `Properties.FailedDependencyStopsTask` | task.go:94-96 | when the dependencies fail, the task's result and final state are exactly those of the dependencies, so none of its own commands runs |
| `Properties.UpToDateTaskSkipsCommands` | task.go:98-101 | without Force, a task that is up to date after its dependencies succeeds with the state the dependencies left, so no command of its own runs |
| `Properties.ForcedRunIgnoresFreshness` | task.go:98 | with Force set, replacing both file-time lookups by any others changes nothing in a run, including its dependencies and sub-tasks: the freshness check is never consulted |
| `Properties.ForcedDepsIgnoreFreshness` | task.go:111-139 | with Force set, the dependencies' outcome does not depend on the file-time lookups |
| `Properties.ForcedDepsFromIgnoreFreshness` | task.go:119-133 | with Force set, the dependency loop does not depend on the file-time lookups |
| `Properties.ForcedCmdsIgnoreFreshness` | task.go:103-108 | with Force set, the command loop does not depend on the file-time lookups |
| `Properties.ForcedCommandIgnoresFreshness` | task.go:169-175 | with Force set, one command, including a `^` sub-task, does not depend on the file-time lookups |
| `Properties.DepsCompleted` | task.go:119-137 | the number of dependencies that substitute and run successfully before the loop stops never passes the end of the list |
| `Properties.DepsFromOutcome` | task.go:119-137 | the dependency loop succeeds exactly when every dependency completed, and then ends in the state the last one left; a failure is exactly the substitution error of the first dependency that did not complete, or the failed run of that dependency, started in the state the earlier ones left |
| `Properties.CompletedDepsSucceeded` | task.go:123-130 | every dependency the loop completed had its name substitute and its run succeed, from the state the earlier ones left to the state the next one starts in |
| `Properties.Attempted` | task.go:103-108 | the number of commands the loop starts from index i on never passes the end of the list |
| `Properties.CommandReadsOnlyItsOwnText` | task.go:164 | command i's outcome depends on no other command of its task |
| `Properties.FirstFailureEndsCommands` | task.go:103-108 | the loop succeeds only after starting every command; a failure is the error of the last command started (index i + n - 1, run in the state the commands before it left), wrapped with the task name, and the commands after it are never reached (replacing them changes nothing) |
| `Properties.FailureIsLastCommands` | task.go:103-106 | a failed loop's outcome is exactly the failure of command i + n - 1 in the state the earlier commands left, its error wrapped with the task name and its state kept |
| `Properties.SuccessRanEveryCommand` | task.go:103-108 | a command loop that succeeds started every command from index i on |
| `Properties.LaterCommandsUnreached` | task.go:103-106 | after a failure, replacing the commands past the failing one by any others gives the same outcome |
| `Properties.FailureWrapsFirstFailure` | task.go:104-105 | a failed command loop is the first failing command's failure, its error wrapped with the task name and its state kept |
| `Properties.FirstFailureAtFailIndex` | task.go:103-104 | the first failing command is the command at the first index whose run fails, started in the state the earlier commands left |
| `Properties.FailIndexIsLastStarted` | task.go:103-106 | when some command fails, the first failing index is i + n - 1, the last command the loop starts |
| `Properties.FirstFailureIsLastStarted` | task.go:103-106 | the first failing command's outcome is that of command i + n - 1, run in the state the commands before it left |
| `Properties.CaretCommandRunsSubTask` | task.go:169-175 | a substituted command starting with `^` is exactly a run of the task named by the rest, with one `^` removed; no shell command is started for it, and the task's Dir, Env and Set play no part |
| `Properties.SelfCallingTaskNeverCompletes` | task.go:169-175 | a task with no dependencies whose only command is `^` followed by its own name (left unchanged by substitution), run with Force or while not up to date, never completes under any nesting bound, and nothing is run; `^` edges are not dependency edges. Without Force, an up-to-date such task succeeds at once |
| `Properties.SpawnOutcome` | task.go:177-209 | once Dir and Env substitute, the shell path runs exactly one external command, handing the runner the current process environment, and reports its error; a failure or an empty Set leaves the environment unchanged; with Set and success, the Set variable holds the trimmed output and every other variable is unchanged (a refused name leaves all unchanged) |
| `Properties.EnumerationLength` | task.go:219 | a `range` over a map visits as many keys as the map has |
| `Properties.EnvEntriesShape` | task.go:219-229 | the loop from any key on succeeds exactly when every remaining pair substitutes, and then appends one entry per key in visiting order after what was built |
| `Properties.EnvEntriesCoverPairs` | task.go:219-229 | on success, every Env pair has its `key=value` entry after the ambient part |
| `Properties.EnvEntriesComeFromPairs` | task.go:219-229 | on success, every entry after the ambient part is the `key=value` entry of some Env pair |
| `Properties.EnvEntriesSucceedIffAllSubstitute` | task.go:219-229 | the loop fails exactly when the key or the value of some Env pair does not substitute |
| `Properties.EnvEntriesOnePerPair` | task.go:217-230 | on success, the result is the ambient environment unchanged, then exactly one entry per Env pair: the entries of the keys in the order of an enumeration of the keys, so two pairs whose entries coincide give that entry twice |
| `Properties.GetEnvironShape` | task.go:212-231 | a nil Env gives nil; otherwise failure exactly when some pair does not substitute, and on success the ambient environment followed by the `key=value` entry, both substituted, of each key in the order of some enumeration of the keys |
| `Execution.Engine.constructor` | task.go:17-28 | the process starts with the given collaborators, an empty registry, the given Force and Watch flags, the inherited environment (one entry per name, as Go's runtime leaves it) and no command run |
| `Execution.Engine.FirstMissingTask` | task.go:63-71 | returns nothing exactly when every requested name is registered, and otherwise the first requested name that is not |
| `Execution.Engine.Run` | task.go:44-85 | a parse error ends the run with the registry, environment and command record unchanged; a cyclic registry ends the run; the first missing requested name (or `default` when no name is given) is reported, and ends the run before any task runs and with the state unchanged; with Watch the names go to the watcher; otherwise the names run in order, and the first failure is fatal |
| `Execution.Engine.RunTask` | task.go:88-109 | its result and the new environment and command record are those of `Semantics.RunTask` |
| `Execution.Engine.RunCommands` | task.go:103-108 | the command loop's result and new state are those of `Semantics.CmdsFrom` from the first command |
| `Execution.Engine.RunDeps` | task.go:111-139 | its result and new state are those of `Semantics.RunDeps` |
| `Execution.Engine.RunCommand` | task.go:159-210 | its result and new state are those of `Semantics.RunCommand` |
| `Execution.Engine.GetEnviron` | task.go:212-231 | its result is that of `Semantics.GetEnviron` on the current environment and record |

## Left out

- Concurrency in `runDeps`: the errgroup goroutines and context cancellation are not modelled. Dependencies run one after the other, in list order, and the first failure stops the loop. In the source, dependencies run concurrently. Other dependencies may still finish after one fails, and which failure is reported depends on timing. The model does not capture that interleaving, nor the race on the shared process environment.
- Fuel: the nesting of dependencies and `^` sub-tasks is bounded. The model reports `DepthExceeded` when the bound is reached. The source has no bound: a `^` cycle, which the dependency cycle check does not see, recurses forever.
- Variable substitution (`ReplaceVariables`) and variable resolution (`handleVariables`) are not part of this model. They are function inputs. Resolution also receives the commands run so far, so dynamic variables can read files that earlier commands changed. The shell commands it runs for dynamic variables do not appear in the record of commands.
- The external command runner (`execext.RunCommand`) is a function input. It maps the commands run so far, the process environment and the new invocation to standard output or an error. The wiring of standard input and standard error and the context are not modelled.
- The file-time lookups (`getPatternsMaxTime`, `getPatternsMinTime`) and glob matching are not part of this model. They are function inputs of the patterns and of the commands run so far, so commands can change the files between checks.
- The iteration order of Go maps in `getEnviron` is an input. It is always an enumeration of the keys and may differ between calls.
- `HasCyclicDep`, `readTaskfile` and `WatchTasks` are not part of this model. `Run` takes the parse result and the cycle check as inputs, and reports the hand-over to the watcher as the outcome `Watching`.
- Logging is not modelled: the "up to date" message, the echo of each shell command, and the "no argument given" message. Neither are `printExistingTasksHelp` and `pflag` parsing. `log.Fatal` becomes the outcome `Fatal` (or `CyclicDependency`) rather than a process exit.
- On a parse error, the source assigns the parser's return value to `Tasks` before exiting. The model leaves the registry unchanged, since the process ends at that point.
- Strings are sequences of Unicode characters, while Go strings are bytes. Captured output or names that are not valid UTF-8 cannot be represented, and neither can what `TrimSpace` and `os.Setenv` do to them.
- The inherited environment is taken with one entry per name, as Go's runtime leaves it after removing duplicates at start-up. That start-up step is not modelled.
- `Desc` is kept in the task record but is not used by the engine.
