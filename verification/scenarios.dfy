/** Concrete passes over small worlds: the first run of a fresh process,
    a later run, the `break` at an unchanged marker, and the sync and
    compose-file error cases. */
module Scenarios {
  import opened GoText
  import opened GoErrors
  import opened Environment
  import opened Version
  import opened Sync
  import opened Manifest
  import opened Deploy
  import opened Reconcile
  import opened ReconcileProperties

  const Url: GoString := "https://git.example/svc1.git"
  const Svc1: App := App("svc1", Url, "v-bucket", "1m")
  const Svc2: App := App("svc2", "https://git.example/svc2.git", "v-bucket", "1m")
  const Dir1: GoString := GitDirectory("svc1")
  const Manifest1: GoString := ManifestPath(Dir1)
  const Dir2: GoString := GitDirectory("svc2")
  const Manifest2: GoString := ManifestPath(Dir2)

  /** The marker file contents `"1.2.3\n"` and `"1.2.4\n"`. */
  const Marker123: seq<byte> := [49, 46, 50, 46, 51, 10]
  const Marker124: seq<byte> := [49, 46, 50, 46, 52, 10]

  /** A world in which every application's marker reads `marker`, exactly
      the paths in `present` exist, a pull returns `pullErr`, and every
      other call succeeds. */
  function SimpleWorld(marker: seq<byte>, present: set<GoString>, pullErr: ErrorValue): World {
    World(
      (bucket, key) => Marker(marker),
      path => path !in present,
      (dir, url) => Nil,
      dir => Nil,
      dir => Nil,
      dir => pullErr,
      (manifest, name) => Nil,
      (manifest, name) => Nil,
      cmd => Exited([]))
  }

  /** svc1's `docker-compose` run with `TAG=<tag>`. */
  function DeployTag(tag: GoString): Action {
    Deploy("svc1", DeployCommand(Manifest1, tag))
  }

  lemma Paths()
    ensures Dir1 == "tmp/svc1"
    ensures GitDirectory("svc2") == "tmp/svc2"
  {
  }

  lemma Marker123Clean()
    ensures CleanNewVersion(Marker123) == "1.2.3"
  {
    CleanDropsOneNewline([49, 46, 50, 46, 51]);
    assert Marker123 == [49, 46, 50, 46, 51] + [Newline];
    assert BytesToString([49, 46, 50, 46, 51]) == "1.2.3";
  }

  lemma Marker124Clean()
    ensures CleanNewVersion(Marker124) == "1.2.4"
  {
    CleanDropsOneNewline([49, 46, 50, 46, 52]);
    assert Marker124 == [49, 46, 50, 46, 52] + [Newline];
    assert BytesToString([49, 46, 50, 46, 52]) == "1.2.4";
  }

  /** A pass over one application is that application's iteration. */
  lemma SingleAppPass(app: App, lastSeen: seq<byte>, w: World)
    ensures var r := ReconcileApp(app, lastSeen, w);
            Pass([app], lastSeen, w) ==
              PassResult(r.Attempted(), if r.Synced? then Completed else HaltStatus(app, r))
  {
    PassIsLoop([app], lastSeen, w);
    var step := Step(lastSeen, w);
    assert step([app][0]) == ReconcileApp(app, lastSeen, w);
    assert [app][1..] == [];
    assert Loop([app][1..], step) == PassResult([], Completed);
  }

  /** The loop over two applications that both succeed. */
  lemma LoopTwoSynced(a: App, b: App, step: App -> AppResult)
    requires step(a).Synced? && step(b).Synced?
    ensures Loop([a, b], step) == PassResult(step(a).actions + step(b).actions, Completed)
  {
    assert [a, b][0] == a && [a, b][1..] == [b] && [b][1..] == [];
    assert Loop([b], step) == PassResult(step(b).actions, Completed);
  }

  /** The loop over two applications, the first succeeding and the second not. */
  lemma LoopSyncedThenHalts(a: App, b: App, step: App -> AppResult)
    requires step(a).Synced? && !step(b).Synced?
    ensures Loop([a, b], step) == PassResult(step(a).actions + step(b).Attempted(), HaltStatus(b, step(b)))
  {
    assert [a, b][0] == a && [a, b][1..] == [b];
  }

  /** A pass over two applications in which the first succeeds and the
      second does not ends with the second. */
  lemma SyncedThenHalts(a: App, b: App, lastSeen: seq<byte>, w: World)
    requires ReconcileApp(a, lastSeen, w).Synced? && !ReconcileApp(b, lastSeen, w).Synced?
    ensures var r := ReconcileApp(b, lastSeen, w);
            Pass([a, b], lastSeen, w) ==
              PassResult(ReconcileApp(a, lastSeen, w).actions + r.Attempted(), HaltStatus(b, r))
  {
    PassIsLoop([a, b], lastSeen, w);
    var step := Step(lastSeen, w);
    assert step(a) == ReconcileApp(a, lastSeen, w) && step(b) == ReconcileApp(b, lastSeen, w);
    LoopSyncedThenHalts(a, b, step);
  }

  /** A pass whose first application does not succeed ends with it. */
  lemma HeadHalts(apps: seq<App>, lastSeen: seq<byte>, w: World)
    requires |apps| > 0 && !ReconcileApp(apps[0], lastSeen, w).Synced?
    ensures var r := ReconcileApp(apps[0], lastSeen, w);
            Pass(apps, lastSeen, w) == PassResult(r.Attempted(), HaltStatus(apps[0], r))
  {
    PassIsLoop(apps, lastSeen, w);
    assert Step(lastSeen, w)(apps[0]) == ReconcileApp(apps[0], lastSeen, w);
  }

  /** svc1 deploys `v` in world `w`, after the sync operation `sync`. */
  lemma Svc1Deploys(w: World, raw: seq<byte>, v: GoString, sync: Action)
    requires w.read("v-bucket", "svc1") == Marker(raw) && CleanNewVersion(raw) == v && v != ""
    requires SyncRepository("svc1", Dir1, Url, w) == SyncResult([sync], Proceed)
    requires !w.statNotExist(Manifest1)
    requires w.newProject(Manifest1, "svc1") == Nil && w.up(Manifest1, "svc1") == Nil
    requires w.run(DeployCommand(Manifest1, v)).Exited?
    ensures ReconcileApp(Svc1, InitialVersion, w) ==
              Synced([sync, ComposeUp("svc1", Manifest1), DeployTag(v)])
  {
    Paths();
    assert BytesToString(InitialVersion) == "";
    assert GatesOpen(Svc1, InitialVersion, w);
    SyncedTrace(Svc1, InitialVersion, w);
  }

  /** First run: no local copy, marker `"1.2.3\n"`: clone, bring the project
      up, run docker-compose with `TAG=1.2.3`. */
  lemma FirstRunClonesAndDeploys()
    ensures Pass([Svc1], InitialVersion, SimpleWorld(Marker123, {Manifest1}, Nil)) ==
              PassResult([Clone("svc1", Dir1, Url), ComposeUp("svc1", Manifest1), DeployTag("1.2.3")],
                         Completed)
  {
    var w := SimpleWorld(Marker123, {Manifest1}, Nil);
    Marker123Clean();
    assert w.statNotExist(Dir1);
    Svc1Deploys(w, Marker123, "1.2.3", Clone("svc1", Dir1, Url));
    SingleAppPass(Svc1, InitialVersion, w);
  }

  /** A later run is a new process, so `version` is again empty: with the
      same marker and the local copy left by the first run, it syncs by
      pulling and deploys `1.2.3` again. */
  lemma LaterRunRedeploys()
    ensures Pass([Svc1], InitialVersion, SimpleWorld(Marker123, {Dir1, Manifest1}, Nil)) ==
              PassResult([Pull("svc1", Dir1), ComposeUp("svc1", Manifest1), DeployTag("1.2.3")],
                         Completed)
  {
    var w := SimpleWorld(Marker123, {Dir1, Manifest1}, Nil);
    Marker123Clean();
    assert !w.statNotExist(Dir1);
    Svc1Deploys(w, Marker123, "1.2.3", Pull("svc1", Dir1));
    SingleAppPass(Svc1, InitialVersion, w);
  }

  /** A pull that reports "already up-to-date" is a successful sync. */
  lemma UpToDatePullDeploys()
    ensures Pass([Svc1], InitialVersion,
                 SimpleWorld(Marker124, {Dir1, Manifest1}, NonNil(GoError(AlreadyUpToDateMessage)))) ==
              PassResult([Pull("svc1", Dir1), ComposeUp("svc1", Manifest1), DeployTag("1.2.4")],
                         Completed)
  {
    var w := SimpleWorld(Marker124, {Dir1, Manifest1}, NonNil(GoError(AlreadyUpToDateMessage)));
    Marker124Clean();
    assert !w.statNotExist(Dir1);
    Svc1Deploys(w, Marker124, "1.2.4", Pull("svc1", Dir1));
    SingleAppPass(Svc1, InitialVersion, w);
  }

  /** Any other pull error ends the process before anything is deployed. */
  lemma OtherPullErrorIsFatal()
    ensures Pass([Svc1], InitialVersion,
                 SimpleWorld(Marker124, {Dir1, Manifest1}, NonNil(GoError("authentication required")))) ==
              PassResult([Pull("svc1", Dir1)], Fatal("svc1", SyncFailed(GoError("authentication required"))))
  {
    var w := SimpleWorld(Marker124, {Dir1, Manifest1}, NonNil(GoError("authentication required")));
    Marker124Clean();
    Paths();
    assert BytesToString(InitialVersion) == "";
    assert !w.statNotExist(Dir1);
    SyncFailureIsFatal(Svc1, InitialVersion, w);
    SingleAppPass(Svc1, InitialVersion, w);
  }

  /** svc2's iteration when only svc1's compose file exists: it clones
      and then finds no compose file. */
  lemma Svc2MissesComposeFile()
    ensures ReconcileApp(Svc2, InitialVersion, SimpleWorld(Marker123, {Manifest1}, Nil)) ==
              Failed([Clone("svc2", Dir2, Svc2.composeUrl)], ManifestMissing(NoDockerComposeError))
  {
    var w := SimpleWorld(Marker123, {Manifest1}, Nil);
    Marker123Clean();
    assert BytesToString(InitialVersion) == "";
    assert Manifest2 != Manifest1 by {
      assert Manifest2[7] == '2';
      assert Manifest1[7] == '1';
    }
    assert Dir2 != Manifest1 by {
      assert |Dir2| < |Manifest1|;
    }
    assert w.statNotExist(Dir2);
    assert SyncRepository("svc2", Dir2, Svc2.composeUrl, w).actions == [Clone("svc2", Dir2, Svc2.composeUrl)];
    MissingManifestIsFatal(Svc2, InitialVersion, w);
  }

  /** The second application has no compose file: the first is deployed,
      then the pass ends with `NoDockerComposeError` after cloning the
      second. */
  lemma MissingComposeFileIsFatal()
    ensures Pass([Svc1, Svc2], InitialVersion, SimpleWorld(Marker123, {Manifest1}, Nil)) ==
              PassResult([Clone("svc1", Dir1, Url), ComposeUp("svc1", Manifest1), DeployTag("1.2.3"),
                          Clone("svc2", Dir2, Svc2.composeUrl)],
                         Fatal("svc2", ManifestMissing(NoDockerComposeError)))
  {
    var w := SimpleWorld(Marker123, {Manifest1}, Nil);
    Marker123Clean();
    assert w.statNotExist(Dir1);
    Svc1Deploys(w, Marker123, "1.2.3", Clone("svc1", Dir1, Url));
    Svc2MissesComposeFile();
    SyncedThenHalts(Svc1, Svc2, InitialVersion, w);
  }

  /** svc1's iteration in the same world: clone, `up`, deploy `1.2.3`. */
  lemma Svc1DeploysSameMarker()
    ensures ReconcileApp(Svc1, InitialVersion, SimpleWorld(Marker123, {Manifest1, Manifest2}, Nil)) ==
              Synced([Clone("svc1", Dir1, Url), ComposeUp("svc1", Manifest1), DeployTag("1.2.3")])
  {
    var w := SimpleWorld(Marker123, {Manifest1, Manifest2}, Nil);
    Marker123Clean();
    assert Dir1 != Manifest1 && Dir1 != Manifest2 by {
      assert |Dir1| < |Manifest1| && |Dir1| < |Manifest2|;
    }
    assert w.statNotExist(Dir1);
    Svc1Deploys(w, Marker123, "1.2.3", Clone("svc1", Dir1, Url));
  }

  /** With both compose files present and marker `"1.2.3\n"`, svc2's
      iteration against the empty `version` clones and deploys `1.2.3`. */
  lemma Svc2DeploysSameMarker()
    ensures ReconcileApp(Svc2, InitialVersion, SimpleWorld(Marker123, {Manifest1, Manifest2}, Nil)) ==
              Synced([Clone("svc2", Dir2, Svc2.composeUrl), ComposeUp("svc2", Manifest2),
                      Deploy("svc2", DeployCommand(Manifest2, "1.2.3"))])
  {
    var w := SimpleWorld(Marker123, {Manifest1, Manifest2}, Nil);
    Marker123Clean();
    assert BytesToString(InitialVersion) == "";
    assert Dir2 != Manifest1 && Dir2 != Manifest2 by {
      assert |Dir2| < |Manifest1| && |Dir2| < |Manifest2|;
    }
    assert w.statNotExist(Dir2);
    assert SyncRepository("svc2", Dir2, Svc2.composeUrl, w).actions == [Clone("svc2", Dir2, Svc2.composeUrl)];
    assert GatesOpen(Svc2, InitialVersion, w);
    SyncedTrace(Svc2, InitialVersion, w);
  }

  /** `version` is one package-level variable that is never assigned, so
      within one pass each application is compared against the empty value,
      not against the version deployed just before it: two applications
      whose markers both read `"1.2.3\n"` are both synced and deployed. */
  lemma SameMarkerDeploysEveryApp()
    ensures Pass([Svc1, Svc2], InitialVersion, SimpleWorld(Marker123, {Manifest1, Manifest2}, Nil)) ==
              PassResult([Clone("svc1", Dir1, Url), ComposeUp("svc1", Manifest1), DeployTag("1.2.3")] +
                         [Clone("svc2", Dir2, Svc2.composeUrl), ComposeUp("svc2", Manifest2),
                          Deploy("svc2", DeployCommand(Manifest2, "1.2.3"))],
                         Completed)
  {
    var w := SimpleWorld(Marker123, {Manifest1, Manifest2}, Nil);
    Svc1DeploysSameMarker();
    Svc2DeploysSameMarker();
    PassIsLoop([Svc1, Svc2], InitialVersion, w);
    var step := Step(InitialVersion, w);
    assert step(Svc1) == ReconcileApp(Svc1, InitialVersion, w) && step(Svc2) == ReconcileApp(Svc2, InitialVersion, w);
    LoopTwoSynced(Svc1, Svc2, step);
  }

  /** A marker holding only a newline normalises to the never-assigned
      `version` and the loop breaks at once: no application, this one or a
      later one, is synced or deployed, and the pass ends without error. */
  lemma LoneNewlineStopsPass()
    ensures Pass([Svc1, Svc2], InitialVersion, SimpleWorld([Newline], {}, Nil)) ==
              PassResult([], StoppedUnchanged("svc1"))
  {
    var w := SimpleWorld([Newline], {}, Nil);
    assert w.read(Svc1.versionBucket, Svc1.name) == Marker([Newline]);
    FreshVersionSkipsOnlyEmptyMarkers(Svc1, w);
    assert ReconcileApp(Svc1, InitialVersion, w) == Unchanged;
    assert [Svc1, Svc2][0] == Svc1;
    HeadHalts([Svc1, Svc2], InitialVersion, w);
  }
}
