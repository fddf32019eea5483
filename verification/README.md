# HydroWatch reconcile pass, modelled in Dafny

HydroWatch is a version-watching deployer. For each application in its watch
file it reads a version marker from a cloud-storage bucket and strips one
trailing newline. It compares the result with the last-seen `version`. When
they are equal the loop stops (`break`). Otherwise it clones `tmp/<name>`, or
pulls it if the directory exists, and checks that `docker-compose.yml` is
there. Then it brings the project up through libcompose and runs
`docker-compose -f <file> up -d` with `TAG=<version>`. An error from the
read, the git calls, libcompose or the subprocess ends the process, except an
"already up-to-date" error from the git calls, which is tolerated. A stat
error other than not-exist is not an error at all: the directory or compose
file counts as present.

The model is a pure function over an abstract environment:

- `GoText`: Go bytes and strings, `string([]byte)`, `strings.TrimSuffix`.
- `GoErrors`: Go `error` values, known by their `Error()` text.
- `Environment`: the configured `App`, the external answers as a `World`
  record of total functions, and the `Action`s the pass attempts (`Clone`,
  `Pull`, `ComposeUp`, `Deploy`).
- `Version`: `CleanNewVersion`.
- `Sync`: `CheckIfError`, `IsNoErrAlreadyUpToDate` and the clone-or-pull
  choice.
- `Manifest`: the `tmp/<name>` and compose-file paths, and
  `DoesDockerComposeFileExist`.
- `Deploy`: the docker-compose command and how the subprocess reads it.
- `Reconcile`: one loop iteration (`ReconcileApp`), the loop (`Loop`) and
  the pass (`Pass`). A pass yields a trace of actions and one of three
  statuses: `Completed`, `StoppedUnchanged(app)` or `Fatal(app, kind)`.
- `ReconcileProperties`: properties of one iteration and of whole passes.
- `Scenarios`: concrete passes over small worlds.

Consequences of the code as written, each proved in the model:

- **`version` is never assigned.** It is a single package-level slice
  (main.go:32), compared at main.go:72 and never written. So within one pass
  every application is compared against the empty value, not against the
  version deployed before it. Only a marker that normalises to the empty
  string stops the loop. Two applications with the same marker are both
  synced and deployed (`Scenarios.SameMarkerDeploysEveryApp`). Each run of
  the program is a new process and makes exactly one pass (main.go:65-129).
- **Normalising is idempotent exactly when the input does not end in two
  newlines.** `TrimSuffix` removes a single newline, so `"a\n\n"` becomes
  `"a\n"` and then `"a"`; `Version.TrimNewlineIdempotentIff` proves the
  exact condition.
- **An unchanged application stops the whole pass.** The loop `break`s, so
  every later application is skipped as well.
- **libcompose runs first.** The project is brought up through libcompose
  `Up` (without `TAG`) before the `docker-compose` subprocess runs. The model
  records both, as `ComposeUp` followed by `Deploy`.

## Model

| member | source | states |
|---|---|---|
| GoText.BytesToString | main.go:132 | `string(b)` keeps the length and every byte value |
| GoText.BytesToStringInjective | main.go:72 | comparing strings converted from byte slices is comparing the slices |
| GoText.TrimSuffix | main.go:132 | one trailing occurrence of the suffix is removed when present, else the string is unchanged |
| Version.CleanNewVersion | main.go:131-133 | a marker ending in newline normalises to the marker minus that newline; any other marker is returned as is |
| Version.CleanDropsOneNewline | main.go:131-133 | `b + "\n"` normalises to `b` for every byte sequence `b` |
| Version.CleanKeepsSecondNewline | main.go:131-133 | exactly one newline is removed: `b + "\n\n"` normalises to `b + "\n"` |
| Version.CleanIsPrefix | main.go:131-133 | the result is a prefix of the marker, at most one shorter, and shorter exactly when the marker ends in newline |
| Version.TrimNewlineIdempotentIff | main.go:131-133 | normalising twice equals normalising once iff the input does not end in two newlines |
| Version.CleanStableWithoutNewline | main.go:131-133 | a marker without trailing newline is a fixed point of normalisation |
| Sync.IsNoErrAlreadyUpToDate | main.go:168-170 | an error is recognised as go-git's "already up-to-date" exactly when its `Error()` text is that message, whatever its identity |
| Sync.CheckIfError | main.go:161-170 | nil and the error whose text is go-git's "already up-to-date" proceed; any other error aborts with that error |
| Sync.SyncRepository | main.go:76-92 | clone exactly when `os.Stat` reports not-exist, with the clone's verdict; otherwise a pull, attempted only after open and worktree succeed; the verdict is that of the first of open, worktree and pull whose error is not tolerated, and success iff none is |
| Manifest.GitDirectory | main.go:76 | the local directory is `tmp/` followed by the application name: its first four characters are `tmp/` and the rest is the name |
| Manifest.GitDirectoryInjective | main.go:76 | different application names give different directory path strings |
| Manifest.ManifestPath | main.go:94 | the compose file is `<dir>/docker-compose.yml` |
| Manifest.DoesDockerComposeFileExist | main.go:135-140 | nil iff stat does not report not-exist; otherwise exactly `NoDockerComposeError` |
| Deploy.DeployCommand | main.go:117-120 | program `docker-compose`, `-f` names the compose file, `up -d`, and the only environment entry yields `TAG` = the normalised version |
| Deploy.DeployCommandInjective | main.go:117-120 | the command determines the compose file and the version, and vice versa |
| Reconcile.Release | main.go:100-127 | a NewProject error ends with `ProjectFailed` and that error, nothing attempted; an Up error ends with `UpFailed` and that error after `ComposeUp` only; otherwise `ComposeUp` then `Deploy`, success iff the command exits with status zero, a non-zero exit ends with `CommandFailed` carrying its stderr, any other run error with `CommandPanicked` |
| Reconcile.Deliver | main.go:76-127 | sync failure and missing compose file are fatal after only the sync operation; otherwise the sync operation precedes the release, whose outcome and fatal kind are kept |
| Reconcile.ReconcileApp | main.go:66-75 | a read error is fatal before any action; the iteration is `Unchanged` iff the normalised marker equals last seen; all actions are for this application |
| Reconcile.SyncedDeploysOnce | main.go:94-127 | a successful iteration deploys its application exactly once |
| Reconcile.LoopStaysWithinApps | main.go:65-128 | the loop only attempts operations for listed applications and stops only at a listed one |
| Reconcile.LoopDeploysInOrder | main.go:65-128 | a loop that completes deployed every application once, in the given order |
| Reconcile.Pass | main.go:65-128 | everything attempted is for a listed application; a completed pass deployed each application once, in order |
| ReconcileProperties.CloneOrPull | main.go:76-92 | a changed application first attempts a clone iff `tmp/<name>` does not exist, else at most a pull; no other sync action follows; an unchanged one or a read error attempts nothing |
| ReconcileProperties.MissingManifestIsFatal | main.go:94-98 | after a successful sync, a missing compose file fails with `NoDockerComposeError` having attempted only the sync |
| ReconcileProperties.DeployIffGatesOpen | main.go:94-122 | a `Deploy` is attempted iff marker changed, sync succeeded, compose file exists and libcompose succeeded, with `TAG=<version>`; it is the last action |
| ReconcileProperties.SyncedTrace | main.go:76-127 | the full trace of a successful iteration: sync operation, `ComposeUp`, `Deploy` |
| ReconcileProperties.SyncFailureIsFatal | main.go:76-92 | a failed sync is fatal with the sync error, after only the sync operation |
| ReconcileProperties.FatalKindNamesFailingStep | main.go:67-125 | every fatal kind names the step that failed and carries that step's error: read, sync, compose file, NewProject, Up, a non-zero exit with its stderr, or the panicking type assertion |
| ReconcileProperties.ReleaseStepGivesFatalKind | main.go:100-125 | conversely, after the compose file is found, each failing release step ends the process with its own kind and error |
| ReconcileProperties.SyncedIffDeployExited | main.go:111-127 | an iteration succeeds iff every gate is open and the command exits with status zero |
| ReconcileProperties.FreshVersionSkipsOnlyEmptyMarkers | main.go:71-75 | against the never-assigned `version`, an application is skipped iff its marker is empty or a lone newline |
| ReconcileProperties.FirstNotSyncedIsFirst | main.go:65-128 | the computed index is the first application whose iteration does not succeed |
| ReconcileProperties.LoopCompletes | main.go:65-128 | when every iteration succeeds the loop completes with all their actions |
| ReconcileProperties.LoopHalts | main.go:65-128 | at the first unsuccessful iteration the loop ends with the earlier actions, that iteration's actions and its outcome |
| ReconcileProperties.LoopShape | main.go:65-128 | every run of the loop is a successful prefix then either completion or a halt at the first unsuccessful iteration |
| ReconcileProperties.PassShape | main.go:65-128 | the same shape for a reconcile pass |
| ReconcileProperties.CompletedIffAllSynced | main.go:65-128 | a pass completes iff every application's iteration succeeds |
| ReconcileProperties.UnchangedStopsPass | main.go:72-75 | an unchanged application ends the pass without error; no later application attempts anything |
| ReconcileProperties.FatalStopsPass | main.go:65-128 | a fatal error at an application ends the pass with that error; no later application attempts anything |
| ReconcileProperties.PassDeploysThroughGates | main.go:94-120 | every deploy in a pass passed that application's gates and carries its compose file and `TAG=<normalised version>` |
| ReconcileProperties.MissingManifestStopsDeploys | main.go:94-98 | a pass failing on a missing compose file deployed exactly the applications before the failing one |
| Scenarios.FirstRunClonesAndDeploys | main.go:65-128 | marker `1.2.3\n` and no local copy: clone, `ComposeUp`, deploy with `TAG=1.2.3`, completed |
| Scenarios.LaterRunRedeploys | main.go:72-92 | a later run is a new process whose `version` is empty again: with the local copy present it pulls and deploys the same marker again |
| Scenarios.SameMarkerDeploysEveryApp | main.go:65-128 | within one pass, two applications whose markers read the same version are both cloned and deployed, since each is compared against the never-assigned `version` |
| Scenarios.UpToDatePullDeploys | main.go:161-170 | a pull answering "already up-to-date" still leads to the deploy |
| Scenarios.OtherPullErrorIsFatal | main.go:89-91 | any other pull error ends the pass after the pull, with no deploy |
| Scenarios.MissingComposeFileIsFatal | main.go:94-98 | the first application deploys, the second fails with `NoDockerComposeError` after its clone |
| Scenarios.LoneNewlineStopsPass | main.go:72-75 | a marker holding only a newline stops the pass at once without error, before any later application |

## Left out

- The `read` helper (main.go:142-155) is network I/O. Only its outcome is
  modelled: the marker bytes or an error, from `World.read`. The stream's
  close is not modelled.
- The go-git calls `PlainClone`, `PlainOpen`, `Worktree` and `Pull` are
  foreign library calls (main.go:79-91). Each is reduced to the error it
  returns, looked up by directory (and URL for a clone).
- Sync.SyncRepository: if `PlainOpen` or `Worktree` returned an error whose
  text were "already up-to-date", Go would go on with a nil repository or
  worktree and crash. The model lets the pull branch continue instead. go-git
  never returns that error from those two calls.
- main.go:100 builds the libcompose context as `&ctx.Context{...}`, but
  `ctx` there is the `context.Context` variable of main.go:59 and the
  libcompose `docker/ctx` package is not imported (main.go:3-20), so the line
  names no type. `Reconcile.Release` models the `NewProject` call the code
  evidently intends.
- The libcompose calls `docker.NewProject` and `project.Up` are foreign
  library calls (main.go:100-115). Each is reduced to its error value, and
  the `Up` attempt is recorded as `ComposeUp`.
- The `exec.Command` run is process I/O (main.go:119-125). Only the command
  it is built with is kept, plus its outcome: success, a non-zero exit with
  its stderr, or another error. That other error is the failed
  `*exec.ExitError` type assertion, which panics; it is `CommandPanicked`.
  Captured stdout is only logged.
- Configuration loading is outside the loop (main.go:41-63): the logger, the
  `GOOGLE_CLOUD_PROJECT` check, reading and unmarshalling `watch.yml`, and
  creating the storage client. The model takes the application list as
  given. The `frequency` field is carried but never used.
- Go map iteration order in `range applications.Apps` is unspecified. The
  order is taken as a given sequence. Names are distinct because they are map
  keys; lemmas that need this say so with `DistinctNames`.
- Logging is output only: zap, `Info`, `LastMessage`, and how
  `Fatalf`/`Infow` format their messages. A fatal log is modelled as the end
  of the pass with a `Fatal` status.
- A `GoString` is any character sequence. Application names, URLs and error
  texts are not restricted to byte-valued characters, and paths are compared
  as strings: `tmp/a` and `tmp/a/` are different paths here although they
  name the same directory.
- One pass is modelled, not a series of them. A clone creating `tmp/<name>`
  shows up in a later pass only through that pass's `World`.
