/** What one reconcile iteration and one whole pass guarantee. */
module ReconcileProperties {
  import opened GoText
  import opened GoErrors
  import opened Environment
  import opened Version
  import opened Sync
  import opened Manifest
  import opened Deploy
  import opened Reconcile

  // ---------------------------------------------------------------------
  // One application
  // ---------------------------------------------------------------------

  /** The sync operation, if any, is attempted first and is the only one:
      a clone of `tmp/<name>` from the configured URL exactly when that
      directory does not exist, otherwise at most a pull in it. An unchanged
      marker or a read error attempts nothing at all. */
  lemma CloneOrPull(app: App, lastSeen: seq<byte>, w: World)
    ensures var acts := ReconcileApp(app, lastSeen, w).Attempted();
            var dir := GitDirectory(app.name);
            && (!Changed(app, lastSeen, w) ==> acts == [])
            && (Changed(app, lastSeen, w) && w.statNotExist(dir) ==>
                  acts[0] == Clone(app.name, dir, app.composeUrl))
            && (Changed(app, lastSeen, w) && !w.statNotExist(dir) ==>
                  acts == [] || acts[0] == Pull(app.name, dir))
            && (forall i | 0 < i < |acts| :: !acts[i].Clone? && !acts[i].Pull?)
  {
    var r := ReconcileApp(app, lastSeen, w);
    if Changed(app, lastSeen, w) {
      var dir := GitDirectory(app.name);
      var sync := SyncRepository(app.name, dir, app.composeUrl, w);
      var manifest := ManifestPath(dir);
      if sync.verdict.Proceed? && !w.statNotExist(manifest) {
        var rel := Release(app, manifest, MarkerVersion(app, w), w);
        assert r.Attempted() == sync.actions + rel.Attempted();
        assert forall i | 0 <= i < |rel.Attempted()| :: !rel.Attempted()[i].Clone? && !rel.Attempted()[i].Pull?;
      }
    }
  }

  /** A changed application whose sync succeeded but whose repository has no
      `docker-compose.yml` ends the pass with `NoDockerComposeError`, having
      attempted nothing beyond the sync. */
  lemma MissingManifestIsFatal(app: App, lastSeen: seq<byte>, w: World)
    requires Changed(app, lastSeen, w)
    requires SyncRepository(app.name, GitDirectory(app.name), app.composeUrl, w).verdict.Proceed?
    requires w.statNotExist(ManifestPath(GitDirectory(app.name)))
    ensures var r := ReconcileApp(app, lastSeen, w);
            && r == Failed(SyncRepository(app.name, GitDirectory(app.name), app.composeUrl, w).actions,
                           ManifestMissing(NoDockerComposeError))
            && forall a | a in r.Attempted() :: a.Clone? || a.Pull?
  {
  }

  /** The `docker-compose` command is run for an application exactly when
      every gate in front of it is open, and then with `-f <compose file> up -d`
      and `TAG=<normalised version>`; it is the last operation attempted. */
  lemma DeployIffGatesOpen(app: App, lastSeen: seq<byte>, w: World, c: Command)
    ensures var acts := ReconcileApp(app, lastSeen, w).Attempted();
            Deploy(app.name, c) in acts <==>
              GatesOpen(app, lastSeen, w) &&
              c == DeployCommand(ManifestPath(GitDirectory(app.name)), MarkerVersion(app, w))
    ensures var acts := ReconcileApp(app, lastSeen, w).Attempted();
            forall i | 0 <= i < |acts| - 1 :: !acts[i].Deploy?
  {
    var r := ReconcileApp(app, lastSeen, w);
    if Changed(app, lastSeen, w) {
      var dir := GitDirectory(app.name);
      var sync := SyncRepository(app.name, dir, app.composeUrl, w);
      var manifest := ManifestPath(dir);
      if sync.verdict.Proceed? && !w.statNotExist(manifest) {
        var rel := Release(app, manifest, MarkerVersion(app, w), w);
        assert r.Attempted() == sync.actions + rel.Attempted();
        assert forall a | a in sync.actions :: !a.Deploy?;
        if |rel.Attempted()| == 2 {
          assert rel.Attempted() == [ComposeUp(app.name, manifest), Deploy(app.name, DeployCommand(manifest, MarkerVersion(app, w)))];
        } else if |rel.Attempted()| == 1 {
          assert rel.Attempted() == [ComposeUp(app.name, manifest)];
        }
      }
    }
  }

  /** The full trace of a successful iteration: the sync operation, the
      libcompose `up`, then the docker-compose run. */
  lemma SyncedTrace(app: App, lastSeen: seq<byte>, w: World)
    requires GatesOpen(app, lastSeen, w)
    requires w.run(DeployCommand(ManifestPath(GitDirectory(app.name)), MarkerVersion(app, w))).Exited?
    ensures var dir := GitDirectory(app.name);
            var manifest := ManifestPath(dir);
            ReconcileApp(app, lastSeen, w) ==
              Synced(SyncRepository(app.name, dir, app.composeUrl, w).actions +
                     [ComposeUp(app.name, manifest), Deploy(app.name, DeployCommand(manifest, MarkerVersion(app, w)))])
  {
    var manifest := ManifestPath(GitDirectory(app.name));
    assert Release(app, manifest, MarkerVersion(app, w), w).Attempted() ==
           [ComposeUp(app.name, manifest), Deploy(app.name, DeployCommand(manifest, MarkerVersion(app, w)))];
  }

  /** A failed sync of a changed application ends the pass with the sync
      error, after only the sync operation. */
  lemma SyncFailureIsFatal(app: App, lastSeen: seq<byte>, w: World)
    requires Changed(app, lastSeen, w)
    requires SyncRepository(app.name, GitDirectory(app.name), app.composeUrl, w).verdict.Abort?
    ensures var sync := SyncRepository(app.name, GitDirectory(app.name), app.composeUrl, w);
            ReconcileApp(app, lastSeen, w) == Failed(sync.actions, SyncFailed(sync.verdict.cause))
  {
  }

  /** Every fatal kind names the step that failed and carries that step's
      error: the read, the sync, the compose-file check, libcompose's
      project or `up`, or the `docker-compose` run (its stderr on a non-zero
      exit, the panic of the failed `*exec.ExitError` assertion otherwise). */
  lemma FatalKindNamesFailingStep(app: App, lastSeen: seq<byte>, w: World)
    ensures var r := ReconcileApp(app, lastSeen, w);
            r.Failed? && r.kind.ReadFailed? ==>
              w.read(app.versionBucket, app.name) == ReadFailure(r.kind.err)
    ensures var r := ReconcileApp(app, lastSeen, w);
            r.Failed? && r.kind.SyncFailed? ==>
              && Changed(app, lastSeen, w)
              && SyncRepository(app.name, GitDirectory(app.name), app.composeUrl, w).verdict == Abort(r.kind.err)
    ensures var r := ReconcileApp(app, lastSeen, w);
            r.Failed? && r.kind.ManifestMissing? ==>
              && Changed(app, lastSeen, w)
              && SyncRepository(app.name, GitDirectory(app.name), app.composeUrl, w).verdict.Proceed?
              && w.statNotExist(ManifestPath(GitDirectory(app.name)))
              && r.kind.err == NoDockerComposeError
    ensures var r := ReconcileApp(app, lastSeen, w);
            var manifest := ManifestPath(GitDirectory(app.name));
            r.Failed? && r.kind.ProjectFailed? ==>
              && Changed(app, lastSeen, w)
              && SyncRepository(app.name, GitDirectory(app.name), app.composeUrl, w).verdict.Proceed?
              && !w.statNotExist(manifest)
              && w.newProject(manifest, app.name) == NonNil(r.kind.err)
    ensures var r := ReconcileApp(app, lastSeen, w);
            var manifest := ManifestPath(GitDirectory(app.name));
            r.Failed? && r.kind.UpFailed? ==>
              && Changed(app, lastSeen, w)
              && SyncRepository(app.name, GitDirectory(app.name), app.composeUrl, w).verdict.Proceed?
              && !w.statNotExist(manifest)
              && w.newProject(manifest, app.name).Nil?
              && w.up(manifest, app.name) == NonNil(r.kind.err)
    ensures var r := ReconcileApp(app, lastSeen, w);
            r.Failed? && r.kind.CommandFailed? ==>
              && GatesOpen(app, lastSeen, w)
              && var run := w.run(DeployCommand(ManifestPath(GitDirectory(app.name)), MarkerVersion(app, w)));
                 run.ExitFailure? && r.kind.stderr == BytesToString(run.stderr)
    ensures var r := ReconcileApp(app, lastSeen, w);
            r.Failed? && r.kind.CommandPanicked? ==>
              && GatesOpen(app, lastSeen, w)
              && w.run(DeployCommand(ManifestPath(GitDirectory(app.name)), MarkerVersion(app, w)))
                   == OtherRunFailure(r.kind.err)
  {
  }

  /** Conversely, once the compose file is found, each failing release step
      ends the process with its own kind and error. */
  lemma ReleaseStepGivesFatalKind(app: App, lastSeen: seq<byte>, w: World)
    requires Changed(app, lastSeen, w)
    requires SyncRepository(app.name, GitDirectory(app.name), app.composeUrl, w).verdict.Proceed?
    requires !w.statNotExist(ManifestPath(GitDirectory(app.name)))
    ensures var r := ReconcileApp(app, lastSeen, w);
            var manifest := ManifestPath(GitDirectory(app.name));
            && (w.newProject(manifest, app.name).NonNil? ==>
                  r.Failed? && r.kind == ProjectFailed(w.newProject(manifest, app.name).err))
            && (w.newProject(manifest, app.name).Nil? && w.up(manifest, app.name).NonNil? ==>
                  r.Failed? && r.kind == UpFailed(w.up(manifest, app.name).err))
    ensures var r := ReconcileApp(app, lastSeen, w);
            var run := w.run(DeployCommand(ManifestPath(GitDirectory(app.name)), MarkerVersion(app, w)));
            && (GatesOpen(app, lastSeen, w) && run.ExitFailure? ==>
                  r.Failed? && r.kind == CommandFailed(BytesToString(run.stderr)))
            && (GatesOpen(app, lastSeen, w) && run.OtherRunFailure? ==>
                  r.Failed? && r.kind == CommandPanicked(run.err))
  {
  }

  /** An iteration succeeds exactly when every gate is open and the
      `docker-compose` command then exits with status zero. */
  lemma SyncedIffDeployExited(app: App, lastSeen: seq<byte>, w: World)
    ensures ReconcileApp(app, lastSeen, w).Synced? <==>
              GatesOpen(app, lastSeen, w) &&
              w.run(DeployCommand(ManifestPath(GitDirectory(app.name)), MarkerVersion(app, w))).Exited?
  {
  }

  /** `version` is never assigned, so against its initial empty value an
      application is skipped exactly when its marker is empty or a lone
      newline; every other marker leads to a sync and deploy attempt. */
  lemma FreshVersionSkipsOnlyEmptyMarkers(app: App, w: World)
    ensures ReconcileApp(app, InitialVersion, w).Unchanged? <==>
              w.read(app.versionBucket, app.name).Marker? &&
              (w.read(app.versionBucket, app.name).bytes == [] ||
               w.read(app.versionBucket, app.name).bytes == [Newline])
  {
    var res := w.read(app.versionBucket, app.name);
    if res.Marker? {
      var raw := res.bytes;
      CleanIsPrefix(raw);
      if raw == [Newline] {
        CleanDropsOneNewline([]);
        assert [] + [Newline] == raw;
      }
    }
  }

  // ---------------------------------------------------------------------
  // The whole pass
  // ---------------------------------------------------------------------

  /** Everything the given applications attempt when `step` runs for each
      in turn, regardless of how each iteration ends. */
  function AllAttempted(apps: seq<App>, step: App -> AppResult): seq<Action> {
    if |apps| == 0 then []
    else step(apps[0]).Attempted() + AllAttempted(apps[1..], step)
  }

  /** A non-empty prefix's attempts start with its first application's. */
  lemma AllAttemptedPrefix(apps: seq<App>, step: App -> AppResult, k: nat)
    requires 0 < k <= |apps|
    ensures AllAttempted(apps[..k], step) == step(apps[0]).Attempted() + AllAttempted(apps[1..][..k - 1], step)
  {
    assert apps[..k][0] == apps[0];
    assert apps[..k][1..] == apps[1..][..k - 1];
  }

  /** Application names are the keys of a Go map, hence distinct. */
  predicate DistinctNames(apps: seq<App>) {
    forall i, j | 0 <= i < j < |apps| :: apps[i].name != apps[j].name
  }

  /** Everything the applications attempt is for one of them. */
  lemma {:induction false} AllAttemptedNames(apps: seq<App>, step: App -> AppResult)
    requires TagsOwnApp(step)
    ensures forall a | a in AllAttempted(apps, step) :: a.app in Names(apps)
  {
    if |apps| > 0 {
      AllAttemptedNames(apps[1..], step);
      assert Names(apps) == [apps[0].name] + Names(apps[1..]);
    }
  }

  /** When every iteration succeeds, each application is deployed once,
      in order. */
  lemma {:induction false} AllSyncedDeployed(apps: seq<App>, step: App -> AppResult)
    requires DeploysOnceWhenSynced(step)
    requires forall j | 0 <= j < |apps| :: step(apps[j]).Synced?
    ensures Deployed(AllAttempted(apps, step)) == Names(apps)
  {
    if |apps| > 0 {
      AllSyncedDeployed(apps[1..], step);
      DeployedAppend(step(apps[0]).Attempted(), AllAttempted(apps[1..], step));
      assert Names(apps) == [apps[0].name] + Names(apps[1..]);
    }
  }

  /** The index of the first application whose iteration does not
      succeed, or `|apps|` when all succeed. */
  function FirstNotSynced(apps: seq<App>, step: App -> AppResult): (k: nat)
    ensures k <= |apps|
  {
    if |apps| == 0 || !step(apps[0]).Synced? then 0
    else 1 + FirstNotSynced(apps[1..], step)
  }

  /** `FirstNotSynced` is the first index whose iteration does not succeed. */
  lemma {:induction false} FirstNotSyncedIsFirst(apps: seq<App>, step: App -> AppResult)
    ensures var k := FirstNotSynced(apps, step);
            && (forall j | 0 <= j < k :: step(apps[j]).Synced?)
            && (k < |apps| ==> !step(apps[k]).Synced?)
  {
    if |apps| > 0 && step(apps[0]).Synced? {
      FirstNotSyncedIsFirst(apps[1..], step);
      var k := FirstNotSynced(apps, step);
      forall j | 0 < j < k
        ensures step(apps[j]).Synced?
      {
        assert apps[j] == apps[1..][j - 1];
      }
      if k < |apps| {
        assert apps[k] == apps[1..][k - 1];
      }
    }
  }

  /** When every iteration succeeds the loop completes, having attempted
      what every application attempts. */
  lemma {:induction false} LoopCompletes(apps: seq<App>, step: App -> AppResult)
    requires FirstNotSynced(apps, step) == |apps|
    ensures Loop(apps, step) == PassResult(AllAttempted(apps, step), Completed)
  {
    if |apps| > 0 {
      LoopCompletes(apps[1..], step);
    }
  }

  /** When iteration `k` is the first that does not succeed, its attempts
      close the trace and its outcome is the status; applications after
      `k` are never looked at. */
  lemma {:induction false} LoopHalts(apps: seq<App>, step: App -> AppResult)
    requires FirstNotSynced(apps, step) < |apps|
    ensures var k := FirstNotSynced(apps, step);
            && !step(apps[k]).Synced?
            && Loop(apps, step) ==
                 PassResult(AllAttempted(apps[..k], step) + step(apps[k]).Attempted(),
                            HaltStatus(apps[k], step(apps[k])))
  {
    var k := FirstNotSynced(apps, step);
    if k == 0 {
      assert AllAttempted(apps[..0], step) == [];
    } else {
      var rest := Loop(apps[1..], step);
      assert Loop(apps, step) == PassResult(step(apps[0]).Attempted() + rest.trace, rest.status);
      LoopHalts(apps[1..], step);
      AllAttemptedPrefix(apps, step, k);
      assert apps[k] == apps[1..][k - 1];
    }
  }

  /** The shape of every run of the loop: the first `k` iterations succeed;
      then either there are no more and the loop completes, or iteration
      `k` is the first that did not succeed, its attempts close the trace
      and its outcome is the status. */
  lemma LoopShape(apps: seq<App>, step: App -> AppResult) returns (k: nat)
    ensures k <= |apps|
    ensures forall j | 0 <= j < k :: step(apps[j]).Synced?
    ensures k == |apps| ==> Loop(apps, step) == PassResult(AllAttempted(apps, step), Completed)
    ensures k < |apps| ==>
              && !step(apps[k]).Synced?
              && Loop(apps, step) ==
                   PassResult(AllAttempted(apps[..k], step) + step(apps[k]).Attempted(),
                              HaltStatus(apps[k], step(apps[k])))
  {
    k := FirstNotSynced(apps, step);
    FirstNotSyncedIsFirst(apps, step);
    if k == |apps| {
      LoopCompletes(apps, step);
    } else {
      LoopHalts(apps, step);
    }
  }

  /** The shape of a reconcile pass (see `LoopShape`). */
  lemma PassShape(apps: seq<App>, lastSeen: seq<byte>, w: World) returns (k: nat)
    ensures k <= |apps|
    ensures forall j | 0 <= j < k :: ReconcileApp(apps[j], lastSeen, w).Synced?
    ensures k == |apps| ==>
              Pass(apps, lastSeen, w) == PassResult(AllAttempted(apps, Step(lastSeen, w)), Completed)
    ensures k < |apps| ==>
              var r := ReconcileApp(apps[k], lastSeen, w);
              && !r.Synced?
              && Pass(apps, lastSeen, w) ==
                   PassResult(AllAttempted(apps[..k], Step(lastSeen, w)) + r.Attempted(),
                              HaltStatus(apps[k], r))
  {
    k := LoopShape(apps, Step(lastSeen, w));
  }

  /** A pass completes exactly when every application succeeds. */
  lemma CompletedIffAllSynced(apps: seq<App>, lastSeen: seq<byte>, w: World)
    ensures Pass(apps, lastSeen, w).status.Completed? <==>
              forall j | 0 <= j < |apps| :: ReconcileApp(apps[j], lastSeen, w).Synced?
  {
    var k := PassShape(apps, lastSeen, w);
  }

  /** The earlier applications' attempts never mention a later one. */
  lemma EarlierAttemptsOnly(apps: seq<App>, lastSeen: seq<byte>, w: World, i: nat)
    requires i <= |apps|
    requires DistinctNames(apps)
    ensures forall a, j | a in AllAttempted(apps[..i], Step(lastSeen, w)) && i <= j < |apps| ::
              a.app != apps[j].name
  {
    AllAttemptedNames(apps[..i], Step(lastSeen, w));
  }

  /** The `break`: when application `i` is unchanged and all before it
      succeeded, the pass stops there without error, with exactly the
      earlier applications' attempts; no later application is attempted. */
  lemma UnchangedStopsPass(apps: seq<App>, lastSeen: seq<byte>, w: World, i: nat)
    requires i < |apps|
    requires forall j | 0 <= j < i :: ReconcileApp(apps[j], lastSeen, w).Synced?
    requires ReconcileApp(apps[i], lastSeen, w).Unchanged?
    requires DistinctNames(apps)
    ensures Pass(apps, lastSeen, w) ==
              PassResult(AllAttempted(apps[..i], Step(lastSeen, w)), StoppedUnchanged(apps[i].name))
    ensures forall a, j | a in Pass(apps, lastSeen, w).trace && i <= j < |apps| :: a.app != apps[j].name
  {
    var k := PassShape(apps, lastSeen, w);
    assert k == i;
    EarlierAttemptsOnly(apps, lastSeen, w, i);
  }

  /** A fatal error at application `i` ends the pass there: the trace ends
      with `i`'s own attempts and no later application is attempted. */
  lemma FatalStopsPass(apps: seq<App>, lastSeen: seq<byte>, w: World, i: nat)
    requires i < |apps|
    requires forall j | 0 <= j < i :: ReconcileApp(apps[j], lastSeen, w).Synced?
    requires ReconcileApp(apps[i], lastSeen, w).Failed?
    requires DistinctNames(apps)
    ensures var r := ReconcileApp(apps[i], lastSeen, w);
            Pass(apps, lastSeen, w) ==
              PassResult(AllAttempted(apps[..i], Step(lastSeen, w)) + r.Attempted(), Fatal(apps[i].name, r.kind))
    ensures forall a, j | a in Pass(apps, lastSeen, w).trace && i < j < |apps| :: a.app != apps[j].name
  {
    var k := PassShape(apps, lastSeen, w);
    assert k == i;
    EarlierAttemptsOnly(apps, lastSeen, w, i);
  }

  /** Every deploy in a pass passed that application's gates and carries
      its `-f <compose file> up -d` arguments and `TAG=<normalised version>`. */
  lemma PassDeploysThroughGates(apps: seq<App>, lastSeen: seq<byte>, w: World, a: Action)
    requires a in Pass(apps, lastSeen, w).trace && a.Deploy?
    ensures exists j | 0 <= j < |apps| ::
              && apps[j].name == a.app
              && GatesOpen(apps[j], lastSeen, w)
              && a.cmd == DeployCommand(ManifestPath(GitDirectory(a.app)), MarkerVersion(apps[j], w))
  {
    var k := PassShape(apps, lastSeen, w);
    var j := AttemptedBy(apps, Step(lastSeen, w), a, Pass(apps, lastSeen, w).trace, k);
    DeployIffGatesOpen(apps[j], lastSeen, w, a.cmd);
  }

  /** Each action of the pass was attempted by the iteration of some
      application `j`. */
  lemma AttemptedBy(apps: seq<App>, step: App -> AppResult, a: Action, trace: seq<Action>, k: nat)
      returns (j: nat)
    requires k <= |apps|
    requires k == |apps| ==> trace == AllAttempted(apps, step)
    requires k < |apps| ==> trace == AllAttempted(apps[..k], step) + step(apps[k]).Attempted()
    requires a in trace
    ensures j < |apps| && a in step(apps[j]).Attempted()
  {
    if k < |apps| && a in step(apps[k]).Attempted() {
      j := k;
    } else {
      var prefix := if k < |apps| then apps[..k] else apps;
      assert a in AllAttempted(prefix, step);
      var j' := AttemptedIn(prefix, step, a);
      j := j';
      assert prefix[j'] == apps[j'];
    }
  }

  lemma {:induction false} AttemptedIn(apps: seq<App>, step: App -> AppResult, a: Action) returns (j: nat)
    requires a in AllAttempted(apps, step)
    ensures j < |apps| && a in step(apps[j]).Attempted()
  {
    if a in step(apps[0]).Attempted() {
      j := 0;
    } else {
      var j' := AttemptedIn(apps[1..], step, a);
      j := j' + 1;
    }
  }

  /** A pass that fails on a missing compose file deployed nothing for that
      application, and only the applications before it were deployed. */
  lemma MissingManifestStopsDeploys(apps: seq<App>, lastSeen: seq<byte>, w: World)
    requires Pass(apps, lastSeen, w).status.Fatal?
    requires Pass(apps, lastSeen, w).status.kind.ManifestMissing?
    ensures var r := Pass(apps, lastSeen, w);
            exists k | 0 <= k < |apps| ::
              && apps[k].name == r.status.app
              && Deployed(r.trace) == Names(apps[..k])
  {
    var k := PassShape(apps, lastSeen, w);
    var step := Step(lastSeen, w);
    var fail := ReconcileApp(apps[k], lastSeen, w);
    DeployedAppend(AllAttempted(apps[..k], step), fail.Attempted());
    assert DeploysOnceWhenSynced(step) by {
      forall app | step(app).Synced?
        ensures Deployed(step(app).Attempted()) == [app.name]
      {
        SyncedDeploysOnce(app, lastSeen, w);
      }
    }
    AllSyncedDeployed(apps[..k], step);
    forall a | a in fail.Attempted()
      ensures !a.Deploy?
    {
      if a.Deploy? {
        DeployIffGatesOpen(apps[k], lastSeen, w, a.cmd);
      }
    }
    NoDeployNoneDeployed(fail.Attempted());
  }

  lemma {:induction false} NoDeployNoneDeployed(s: seq<Action>)
    requires forall a | a in s :: !a.Deploy?
    ensures Deployed(s) == []
  {
    if |s| > 0 {
      NoDeployNoneDeployed(s[1..]);
    }
  }
}
