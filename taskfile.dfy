/** The data model of the task runner: task definitions, the errors a run can
    report, and the calls it hands to the external command runner. */
module Taskfile {

  datatype Option<T> = None | Some(value: T)

  /** The error values that reach a caller of RunTask. */
  datatype Error =
    | TaskNotFound(taskName: string)
      // taskNotFoundError: no task is registered under taskName
    | TaskRunError(taskName: string, cause: Error)
      // taskRunError: one of taskName's own commands failed with cause
    | External(message: string)
      // an error returned by a collaborator of the engine: variable
      // substitution, variable resolution, the command runner, the parser
    | DepthExceeded(taskName: string)
      // not in the source: nesting of dependencies and `^` sub-tasks went
      // deeper than the model's fuel bound when taskName was entered

  /** A value or the error that prevented it. */
  datatype Result<T> = Ok(value: T) | Err(error: Error)

  /** Go's `error` return value: nil, or an error. */
  datatype Status = Success | Failure(error: Error)

  /** One entry of the task registry. Env is None for a nil map (no `env`
      section) and Some of a possibly empty map otherwise. */
  datatype Task = Task(
    cmds: seq<string>,
    deps: seq<string>,
    desc: string,
    sources: seq<string>,
    generates: seq<string>,
    dir: string,
    vars: map<string, string>,
    setVar: string,
    env: Option<map<string, string>>)

  /** One call of the external command runner: the substituted command, its
      working directory, its environment (None: inherit the process's), and
      whether its standard output is captured (the task has a setVar name, Go's Set)
      rather than shown. */
  datatype Invocation = Invocation(command: string, dir: string, env: Option<seq<string>>, captured: bool)
}
