/** What a child process can report back to montra, and how the sources
    classify it. `execute` (src/lib/exec.ts), `execTmux` and the
    docker-compose helpers all share one classification: a thrown value that
    is an object carrying both `code` and `message` is an execution error,
    anything else is an unknown error. None of them throws. */
module Outcomes {

  datatype Option<+T> = None | Some(value: T) {
    /** The `??` operator: the value, or the default when absent. */
    function GetOr(default: T): T {
      match this
      case Some(v) => v
      case None => default
    }
  }

  /** The `code` property of a thrown value: a number (a process exit
      status) or something else (a string such as `ENOENT`, or null). */
  datatype ErrCode = NumCode(n: int) | OtherCode

  /** A value thrown by `child_process.exec`, described by exactly the
      properties the sources inspect. */
  datatype Thrown = Thrown(isObject: bool, hasCode: bool, hasMessage: bool,
                           code: ErrCode, message: string)

  /** What running a command line produces: its output, or a thrown value. */
  datatype RunOutcome = Completed(stdout: string, stderr: string) | Threw(thrown: Thrown)

  /** `isExecException`: an object, not null, with `code` and `message`. */
  predicate IsExecException(t: Thrown) {
    t.isObject && t.hasCode && t.hasMessage
  }

  /** The two failure kinds of a subprocess helper. */
  datatype ExecFailure = ExecError(code: ErrCode, message: string) | UnknownError(message: string)

  function ClassifyThrown(t: Thrown): (e: ExecFailure)
    ensures e.ExecError? <==> IsExecException(t)
    ensures e.ExecError? ==> e.code == t.code
    ensures e.message == t.message
  {
    if IsExecException(t) then ExecError(t.code, t.message) else UnknownError(t.message)
  }

  /** The result of `execute`: success with the output, or a classified
      failure. */
  datatype ExecResult = ExecOk(stdout: string, stderr: string) | ExecFailed(error: ExecFailure)

  /** `execute(command)` given what running `command` produced. */
  function Execute(o: RunOutcome): (r: ExecResult)
    ensures r.ExecOk? <==> o.Completed?
    ensures o.Completed? ==> r.stdout == o.stdout && r.stderr == o.stderr
    ensures o.Threw? ==> r.error == ClassifyThrown(o.thrown)
  {
    match o
    case Completed(out, err) => ExecOk(out, err)
    case Threw(t) => ExecFailed(ClassifyThrown(t))
  }

  /** A console line: `console.log`, `console.warn` or `console.error`. */
  datatype Log = Info(text: string) | Warning(text: string) | Failure(text: string)
}
