/** Repository synchronisation: clone `tmp/<name>` when it is absent,
    otherwise open it and pull from "origin"; go-git's "already up-to-date"
    outcome is success, every other error is fatal. */
module Sync {
  import opened GoText
  import opened GoErrors
  import opened Environment

  /** The `Error()` text of go-git's `NoErrAlreadyUpToDate`. */
  const AlreadyUpToDateMessage: GoString := "already up-to-date"

  /** What `CheckIfError` decides: carry on, or end the process with `cause`. */
  datatype Verdict = Proceed | Abort(cause: GoError)

  /** Errors are compared by their `Error()` text, not by identity: any
      error whose text is go-git's is recognised, and no other. */
  function IsNoErrAlreadyUpToDate(e: GoError): (b: bool)
    ensures b <==> e == GoError(AlreadyUpToDateMessage)
  {
    e.message == AlreadyUpToDateMessage
  }

  /** nil and the already-up-to-date error let the pass go on; any other
      error ends the process, reporting that error. */
  function CheckIfError(e: ErrorValue): (v: Verdict)
    ensures v.Proceed? <==> e == Nil || e == NonNil(GoError(AlreadyUpToDateMessage))
    ensures v.Abort? ==> e == NonNil(v.cause)
  {
    if e.Nil? || IsNoErrAlreadyUpToDate(e.err) then Proceed else Abort(e.err)
  }

  /** The operations attempted while syncing and the verdict reached. */
  datatype SyncResult = SyncResult(actions: seq<Action>, verdict: Verdict)

  /** One application's sync, for local directory `dir` and source `url`.
      Exactly one branch is taken: the clone branch when `dir` does not
      exist, else the open/worktree/pull branch, whose pull is attempted only
      after opening the repository and its worktree succeeded. */
  function SyncRepository(app: GoString, dir: GoString, url: GoString, w: World): (r: SyncResult)
    ensures forall a | a in r.actions :: a.app == app
    ensures w.statNotExist(dir) ==>
              r == SyncResult([Clone(app, dir, url)], CheckIfError(w.clone(dir, url)))
    ensures !w.statNotExist(dir) ==>
              r.actions == [] || r.actions == [Pull(app, dir)]
    ensures !w.statNotExist(dir) ==>
              (r.actions == [Pull(app, dir)] <==>
                 CheckIfError(w.open(dir)).Proceed? && CheckIfError(w.worktree(dir)).Proceed?)
    ensures !w.statNotExist(dir) ==>
              (r.verdict.Proceed? <==>
                 && CheckIfError(w.open(dir)).Proceed?
                 && CheckIfError(w.worktree(dir)).Proceed?
                 && CheckIfError(w.pull(dir)).Proceed?)
    // the first failing step of the pull branch is the one that ends the process
    ensures !w.statNotExist(dir) && CheckIfError(w.open(dir)).Abort? ==>
              r == SyncResult([], CheckIfError(w.open(dir)))
    ensures !w.statNotExist(dir) && CheckIfError(w.open(dir)).Proceed? &&
            CheckIfError(w.worktree(dir)).Abort? ==>
              r == SyncResult([], CheckIfError(w.worktree(dir)))
    ensures !w.statNotExist(dir) && CheckIfError(w.open(dir)).Proceed? &&
            CheckIfError(w.worktree(dir)).Proceed? ==>
              r == SyncResult([Pull(app, dir)], CheckIfError(w.pull(dir)))
  {
    if w.statNotExist(dir) then
      SyncResult([Clone(app, dir, url)], CheckIfError(w.clone(dir, url)))
    else
      match CheckIfError(w.open(dir))
      case Abort(e) => SyncResult([], Abort(e))
      case Proceed =>
        match CheckIfError(w.worktree(dir))
        case Abort(e) => SyncResult([], Abort(e))
        case Proceed => SyncResult([Pull(app, dir)], CheckIfError(w.pull(dir)))
  }
}
