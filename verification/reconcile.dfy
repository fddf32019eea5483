/** The reconcile pass: the body of the `for ... range applications.Apps`
    loop in `main`, over an ordered sequence of applications. */
module Reconcile {
  import opened GoText
  import opened GoErrors
  import opened Environment
  import opened Version
  import opened Sync
  import opened Manifest
  import opened Deploy

  /** Why the process ended with a fatal log line. */
  datatype FatalKind =
    | ReadFailed(err: GoError)
    | SyncFailed(err: GoError)
    | ManifestMissing(err: GoError)
    | ProjectFailed(err: GoError)
    | UpFailed(err: GoError)
    | CommandFailed(stderr: GoString)
    | CommandPanicked(err: GoError)

  /** What one loop iteration did for one application. */
  datatype AppResult =
    | Synced(actions: seq<Action>)
    | Unchanged
    | Failed(actions: seq<Action>, kind: FatalKind)
  {
    /** The operations attempted in this iteration, in order. */
    function Attempted(): seq<Action> {
      match this
      case Synced(a) => a
      case Unchanged => []
      case Failed(a, _) => a
    }
  }

  /** How a pass ends: the loop ran out of applications, the loop hit
      `break` at an unchanged application, or the process was ended. */
  datatype Status =
    | Completed
    | StoppedUnchanged(app: GoString)
    | Fatal(app: GoString, kind: FatalKind)

  datatype PassResult = PassResult(trace: seq<Action>, status: Status)

  /** The package-level `version`: declared, never assigned, so every
      application of a pass is compared against its nil zero value, which
      converts to the empty string, rather than against the version
      deployed before it. */
  const InitialVersion: seq<byte> := []

  /** The version the application's marker normalises to, if it could be read. */
  function MarkerVersion(app: App, w: World): GoString
    requires w.read(app.versionBucket, app.name).Marker?
  {
    CleanNewVersion(w.read(app.versionBucket, app.name).bytes)
  }

  /** The marker was read and differs from the last-seen version. */
  predicate Changed(app: App, lastSeen: seq<byte>, w: World) {
    w.read(app.versionBucket, app.name).Marker? &&
    MarkerVersion(app, w) != BytesToString(lastSeen)
  }

  /** Every gate in front of the `docker-compose` run is open: the marker
      changed, the sync succeeded, the compose file exists and libcompose
      created and brought up the project. */
  predicate GatesOpen(app: App, lastSeen: seq<byte>, w: World) {
    var dir := GitDirectory(app.name);
    var manifest := ManifestPath(dir);
    && Changed(app, lastSeen, w)
    && SyncRepository(app.name, dir, app.composeUrl, w).verdict.Proceed?
    && !w.statNotExist(manifest)
    && w.newProject(manifest, app.name).Nil?
    && w.up(manifest, app.name).Nil?
  }

  /** `r` with `prior` attempted before everything it attempted. */
  function After(prior: seq<Action>, r: AppResult): (r': AppResult)
    requires !r.Unchanged?
    ensures !r'.Unchanged? && r'.Synced? == r.Synced?
    ensures r'.Attempted() == prior + r.Attempted()
    ensures r'.Failed? ==> r'.kind == r.kind
  {
    match r
    case Synced(a) => Synced(prior + a)
    case Failed(a, k) => Failed(prior + a, k)
  }

  /** The libcompose project and `up`, then the `docker-compose` command,
      for the compose file at `manifest` and normalised version `v`. */
  function Release(app: App, manifest: GoString, v: GoString, w: World): (r: AppResult)
    ensures !r.Unchanged?
    ensures forall a | a in r.Attempted() :: a.app == app.name
    ensures r.Attempted() == [] <==> w.newProject(manifest, app.name).NonNil?
    ensures w.newProject(manifest, app.name).Nil? ==>
              r.Attempted()[..1] == [ComposeUp(app.name, manifest)]
    ensures |r.Attempted()| <= 2
    ensures |r.Attempted()| == 2 <==>
              w.newProject(manifest, app.name).Nil? && w.up(manifest, app.name).Nil?
    ensures |r.Attempted()| == 2 ==> r.Attempted()[1] == Deploy(app.name, DeployCommand(manifest, v))
    ensures r.Synced? <==>
              && w.newProject(manifest, app.name).Nil?
              && w.up(manifest, app.name).Nil?
              && w.run(DeployCommand(manifest, v)).Exited?
    // which fatal line each failing step ends the process with
    ensures w.newProject(manifest, app.name).NonNil? ==>
              r == Failed([], ProjectFailed(w.newProject(manifest, app.name).err))
    ensures w.newProject(manifest, app.name).Nil? && w.up(manifest, app.name).NonNil? ==>
              r == Failed([ComposeUp(app.name, manifest)], UpFailed(w.up(manifest, app.name).err))
    ensures |r.Attempted()| == 2 && w.run(DeployCommand(manifest, v)).ExitFailure? ==>
              r.Failed? && r.kind == CommandFailed(BytesToString(w.run(DeployCommand(manifest, v)).stderr))
    ensures |r.Attempted()| == 2 && w.run(DeployCommand(manifest, v)).OtherRunFailure? ==>
              r.Failed? && r.kind == CommandPanicked(w.run(DeployCommand(manifest, v)).err)
  {
    match w.newProject(manifest, app.name)
    case NonNil(e) => Failed([], ProjectFailed(e))
    case Nil =>
      var upActions := [ComposeUp(app.name, manifest)];
      match w.up(manifest, app.name)
      case NonNil(e) => Failed(upActions, UpFailed(e))
      case Nil =>
        var cmd := DeployCommand(manifest, v);
        var actions := upActions + [Deploy(app.name, cmd)];
        match w.run(cmd)
        case Exited(_) => Synced(actions)
        case ExitFailure(stderr) => Failed(actions, CommandFailed(BytesToString(stderr)))
        case OtherRunFailure(e) => Failed(actions, CommandPanicked(e))
  }

  /** The sync, compose-file check and release of an application whose
      marker changed to normalised version `v`. */
  function Deliver(app: App, v: GoString, w: World): (r: AppResult)
    ensures !r.Unchanged?
    ensures forall a | a in r.Attempted() :: a.app == app.name
    ensures var sync := SyncRepository(app.name, GitDirectory(app.name), app.composeUrl, w);
            var manifest := ManifestPath(GitDirectory(app.name));
            && (sync.verdict.Abort? ==> r == Failed(sync.actions, SyncFailed(sync.verdict.cause)))
            && (sync.verdict.Proceed? && w.statNotExist(manifest) ==>
                  r == Failed(sync.actions, ManifestMissing(NoDockerComposeError)))
            && (sync.verdict.Proceed? && !w.statNotExist(manifest) ==>
                  var rel := Release(app, manifest, v, w);
                  && r.Attempted() == sync.actions + rel.Attempted()
                  && r.Synced? == rel.Synced?
                  && (r.Failed? ==> r.kind == rel.kind))
  {
    var dir := GitDirectory(app.name);
    var sync := SyncRepository(app.name, dir, app.composeUrl, w);
    if sync.verdict.Abort? then Failed(sync.actions, SyncFailed(sync.verdict.cause))
    else
      var manifest := ManifestPath(dir);
      match DoesDockerComposeFileExist(manifest, w)
      case NonNil(e) => Failed(sync.actions, ManifestMissing(e))
      case Nil => After(sync.actions, Release(app, manifest, v, w))
  }

  /** One loop iteration for `app`, with `lastSeen` the value of `version`. */
  function ReconcileApp(app: App, lastSeen: seq<byte>, w: World): (r: AppResult)
    // a read error is fatal before anything is attempted
    ensures w.read(app.versionBucket, app.name).ReadFailure? ==>
              r == Failed([], ReadFailed(w.read(app.versionBucket, app.name).err))
    ensures r.Failed? && r.kind.ReadFailed? ==> w.read(app.versionBucket, app.name).ReadFailure?
    // the compare-and-skip gate
    ensures r.Unchanged? <==>
              w.read(app.versionBucket, app.name).Marker? && !Changed(app, lastSeen, w)
    // every attempted operation is for this application
    ensures forall a | a in r.Attempted() :: a.app == app.name
  {
    match w.read(app.versionBucket, app.name)
    case ReadFailure(e) => Failed([], ReadFailed(e))
    case Marker(raw) =>
      var v := CleanNewVersion(raw);
      if v == BytesToString(lastSeen) then Unchanged
      else Deliver(app, v, w)
  }

  /** The status a pass ends with when it stops at `app`, whose iteration
      returned `r`. */
  function HaltStatus(app: App, r: AppResult): Status
    requires !r.Synced?
  {
    if r.Unchanged? then StoppedUnchanged(app.name) else Fatal(app.name, r.kind)
  }

  /** The names of the applications deployed in `trace`, in order. */
  function Deployed(trace: seq<Action>): seq<GoString> {
    if |trace| == 0 then []
    else (if trace[0].Deploy? then [trace[0].app] else []) + Deployed(trace[1..])
  }

  function Names(apps: seq<App>): (ns: seq<GoString>)
    ensures |ns| == |apps|
    ensures forall i | 0 <= i < |apps| :: ns[i] == apps[i].name
  {
    seq(|apps|, i requires 0 <= i < |apps| => apps[i].name)
  }

  lemma {:induction false} DeployedAppend(s: seq<Action>, t: seq<Action>)
    ensures Deployed(s + t) == Deployed(s) + Deployed(t)
  {
    if |s| == 0 {
      assert s + t == t;
    } else {
      assert (s + t)[1..] == s[1..] + t;
      DeployedAppend(s[1..], t);
    }
  }

  /** A successful iteration deploys its application exactly once. */
  lemma SyncedDeploysOnce(app: App, lastSeen: seq<byte>, w: World)
    requires ReconcileApp(app, lastSeen, w).Synced?
    ensures Deployed(ReconcileApp(app, lastSeen, w).Attempted()) == [app.name]
  {
    var acts := ReconcileApp(app, lastSeen, w).Attempted();
    var dir := GitDirectory(app.name);
    var sync := SyncRepository(app.name, dir, app.composeUrl, w);
    var manifest := ManifestPath(dir);
    var cmd := DeployCommand(manifest, MarkerVersion(app, w));
    assert acts == sync.actions + [ComposeUp(app.name, manifest)] + [Deploy(app.name, cmd)];
    DeployedAppend(sync.actions + [ComposeUp(app.name, manifest)], [Deploy(app.name, cmd)]);
    DeployedAppend(sync.actions, [ComposeUp(app.name, manifest)]);
    assert Deployed(sync.actions) == [] by {
      if sync.actions != [] {
        assert Deployed(sync.actions[1..]) == [];
      }
    }
  }

  /** Every operation `step` attempts for an application is for that
      application. */
  ghost predicate TagsOwnApp(step: App -> AppResult) {
    forall app :: forall a | a in step(app).Attempted() :: a.app == app.name
  }

  /** When `step` succeeds for an application, it deployed exactly that
      application, once. */
  ghost predicate DeploysOnceWhenSynced(step: App -> AppResult) {
    forall app :: step(app).Synced? ==> Deployed(step(app).Attempted()) == [app.name]
  }

  /** The loop over `apps` in the given order with iteration body `step`:
      it stops at the first iteration that does not succeed, whose outcome
      becomes the status, and completes when every iteration succeeds. */
  function Loop(apps: seq<App>, step: App -> AppResult): PassResult
    decreases |apps|
  {
    if |apps| == 0 then PassResult([], Completed)
    else
      var first := step(apps[0]);
      if !first.Synced? then PassResult(first.Attempted(), HaltStatus(apps[0], first))
      else
        var rest := Loop(apps[1..], step);
        PassResult(first.Attempted() + rest.trace, rest.status)
  }

  /** The loop attempts operations only for listed applications, and stops
      only at a listed application. */
  lemma {:induction false} LoopStaysWithinApps(apps: seq<App>, step: App -> AppResult)
    requires TagsOwnApp(step)
    ensures forall a | a in Loop(apps, step).trace :: a.app in Names(apps)
    ensures !Loop(apps, step).status.Completed? ==> Loop(apps, step).status.app in Names(apps)
  {
    if |apps| > 0 {
      assert Names(apps) == [apps[0].name] + Names(apps[1..]);
      if step(apps[0]).Synced? {
        LoopStaysWithinApps(apps[1..], step);
      }
    }
  }

  /** A loop that completes deployed every application once, in order. */
  lemma {:induction false} LoopDeploysInOrder(apps: seq<App>, step: App -> AppResult)
    requires DeploysOnceWhenSynced(step)
    ensures Loop(apps, step).status.Completed? ==> Deployed(Loop(apps, step).trace) == Names(apps)
  {
    if |apps| > 0 && step(apps[0]).Synced? {
      var first := step(apps[0]);
      LoopDeploysInOrder(apps[1..], step);
      DeployedAppend(first.Attempted(), Loop(apps[1..], step).trace);
      assert Names(apps) == [apps[0].name] + Names(apps[1..]);
    }
  }

  /** The loop body of `main` as a function of the application, for a
      fixed `version` and world. */
  function Step(lastSeen: seq<byte>, w: World): App -> AppResult {
    app => ReconcileApp(app, lastSeen, w)
  }

  /** One reconcile pass over `apps` in the given order. It stops at the
      first unchanged application (`break`) and at the first fatal error,
      and never changes `lastSeen`. */
  function Pass(apps: seq<App>, lastSeen: seq<byte>, w: World): (r: PassResult)
    // everything attempted is for a listed application
    ensures forall a | a in r.trace :: a.app in Names(apps)
    // a pass that stops names a listed application
    ensures !r.status.Completed? ==> r.status.app in Names(apps)
    // a completed pass deployed every application once, in order
    ensures r.status.Completed? ==> Deployed(r.trace) == Names(apps)
  {
    var step := Step(lastSeen, w);
    assert TagsOwnApp(step);
    assert DeploysOnceWhenSynced(step) by {
      forall app | step(app).Synced?
        ensures Deployed(step(app).Attempted()) == [app.name]
      {
        SyncedDeploysOnce(app, lastSeen, w);
      }
    }
    LoopStaysWithinApps(apps, step);
    LoopDeploysInOrder(apps, step);
    Loop(apps, step)
  }

  /** A pass is the loop run with `main`'s loop body. */
  lemma PassIsLoop(apps: seq<App>, lastSeen: seq<byte>, w: World)
    ensures Pass(apps, lastSeen, w) == Loop(apps, Step(lastSeen, w))
  {
  }
}
