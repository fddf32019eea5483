/** Go `error` values. The pass only ever tests an error against nil and
    compares its `Error()` text, so an error is identified by that text. */
module GoErrors {
  import opened GoText

  /** A non-nil Go error, known by its `Error()` text. */
  datatype GoError = GoError(message: GoString)

  /** A value of Go's `error` interface type: nil or some error. */
  datatype ErrorValue = Nil | NonNil(err: GoError)
}

/** Everything the reconcile pass reads from or does to the outside world.

    The configured applications arrive already parsed. Every external call
    of the pass becomes a total function in `World`, keyed by the arguments
    the code passes to it; a pass queries each key at most once, so a fixed
    answer per key loses nothing. The calls the pass makes are recorded as
    `Action`s.
 */
module Environment {
  import opened GoText
  import opened GoErrors

  /** One watched application: its map key in `watch.yml` and its three
      configured fields. `frequency` is carried but never interpreted. */
  datatype App = App(
    name: GoString,
    composeUrl: GoString,
    versionBucket: GoString,
    frequency: GoString)

  /** Outcome of reading object `name` from the version bucket. */
  datatype ReadResult = Marker(bytes: seq<byte>) | ReadFailure(err: GoError)

  /** A subprocess: program, arguments and its complete environment. */
  datatype Command = Command(program: GoString, args: seq<GoString>, env: seq<GoString>)

  /** Outcome of `cmd.Output()`: success with the captured stdout, a
      non-zero exit (`*exec.ExitError`) with its stderr, or any other error
      (the program could not be started, for instance). */
  datatype RunResult =
    | Exited(stdout: seq<byte>)
    | ExitFailure(stderr: seq<byte>)
    | OtherRunFailure(err: GoError)

  /** The answers the outside world gives to the pass. */
  datatype World = World(
    /** `read(client, bucket, object)` */
    read: (GoString, GoString) -> ReadResult,
    /** `os.IsNotExist(err)` for `os.Stat(path)` */
    statNotExist: GoString -> bool,
    /** `git.PlainClone(dir, ...)` from `url` */
    clone: (GoString, GoString) -> ErrorValue,
    /** `git.PlainOpen(dir)` */
    open: GoString -> ErrorValue,
    /** `r.Worktree()` of the repository at `dir` */
    worktree: GoString -> ErrorValue,
    /** `w.Pull` from remote "origin" in `dir` */
    pull: GoString -> ErrorValue,
    /** `docker.NewProject` for (compose file, project name) */
    newProject: (GoString, GoString) -> ErrorValue,
    /** `project.Up` of the project for that compose file and name */
    up: (GoString, GoString) -> ErrorValue,
    /** `cmd.Output()` */
    run: Command -> RunResult)

  /** An external operation the pass attempted, tagged with the
      application it was attempted for. */
  datatype Action =
    | Clone(app: GoString, dir: GoString, url: GoString)
    | Pull(app: GoString, dir: GoString)
    | ComposeUp(app: GoString, manifest: GoString)
    | Deploy(app: GoString, cmd: Command)
}
