/** The migration from GameAP v3 to v4 and its rollback
    (internal/actions/panel/update/panel_update_v3_to_v4.go). */
module MigrateV3V4 {
  import opened FileSystem
  import opened Services

  datatype WebServer = NoServer | Nginx | Apache | OtherServer

  /** The places the migration keeps the v3 tree and the web server's file. */
  datatype Paths = Paths(v3: string, backup: string, final: string, webConf: string, webBackup: string)
  {
    function All(): set<string> {
      {v3, backup, final, webConf, webBackup}
    }

    predicate Distinct() {
      && v3 != backup && v3 != final && backup != final
      && webConf !in {v3, backup, final} && webBackup !in {v3, backup, final, webConf}
    }
  }

  /** The calls a migration makes besides those on files and on the panel. */
  datatype Step = ReadV3 | BuildConfig | MigrateDatabase | InstallPanel | CopyStorage | RestartWeb

  datatype Removal = NotSeen | RemoveFailed | Removed

  /** What the operating system answered to a rollback. */
  datatype Answers = Answers(removal: Removal, move: MoveResult)

  /** How a run ends: `installed` is whether v4 had been installed. The rollback
      returned nil when the move worked; `web` is whether it copied the web server's
      file back. */
  datatype Outcome =
    | NotBackedUp
    | Aborted
    | RolledBack(installed: bool, answers: Answers, web: bool)
    | Migrated(moved: MoveResult, removed: bool)

  /** A complete copy of the v3 tree exists somewhere. */
  ghost predicate NeverLost(s: State, paths: Paths, v3Tree: Tree) {
    HoldsAll(s, paths.v3, v3Tree) || HoldsAll(s, paths.backup, v3Tree) || HoldsAll(s, paths.final, v3Tree)
  }

  /** The backup is complete, and the v3 tree is untouched unless v4 is installed
      over it. */
  ghost predicate Intact(s: State, paths: Paths, v3Tree: Tree, inPlace: bool) {
    Holds(s, paths.backup, v3Tree) && (!inPlace ==> Holds(s, paths.v3, v3Tree))
  }

  // --------------------------------------------------------- web server

  predicate Supported(web: WebServer) {
    web == Nginx || web == Apache
  }

  /** The path of the panel's site file, if the distribution has one. */
  method LookUpConfig(disk: Disk, web: WebServer) returns (ok: bool)
    modifies disk`faults
    ensures ok ==> Supported(web)
    ensures disk.faults == old(disk.faults) + if Supported(web) && !ok then 1 else 0
  {
    if web != Nginx && web != Apache {
      return false;
    }
    ok := disk.Attempt();
  }

  method BackupWebServerConfig(disk: Disk, paths: Paths, web: WebServer) returns (ok: bool)
    requires disk.Valid() && paths.Distinct()
    modifies disk`trees, disk`history, disk`faults
    ensures disk.Valid() && old(disk.history) <= disk.history
    ensures disk.OnlyTouched(|old(disk.history)|, old(disk.trees), {paths.webBackup})
    ensures SameExcept(disk.trees, old(disk.trees), {paths.webBackup})
    ensures ok ==> Supported(web) && paths.webConf in old(disk.trees) && paths.webBackup in disk.trees
    ensures ok && old(disk.trees)[paths.webConf].Keys == {""} ==>
      Holds(disk.trees, paths.webBackup, old(disk.trees)[paths.webConf])
    ensures disk.faults >= old(disk.faults)
    ensures ok || disk.faults > old(disk.faults) || !Supported(web) || paths.webConf !in old(disk.trees)
  {
    var found := LookUpConfig(disk, web);
    if !found {
      return false;
    }
    found := disk.Exists(paths.webConf);
    if !found {
      return false;
    }
    ok := disk.Copy(paths.webConf, paths.webBackup);
  }

  method UpdateWebServerConfig(disk: Disk, paths: Paths, web: WebServer, proxyConfig: string) returns (ok: bool)
    requires disk.Valid() && paths.Distinct()
    modifies disk
    ensures disk.Valid() && old(disk.history) <= disk.history
    ensures disk.OnlyTouched(|old(disk.history)|, old(disk.trees), {paths.webConf})
    ensures SameExcept(disk.trees, old(disk.trees), {paths.webConf})
    ensures ok ==> Holds(disk.trees, paths.webConf, File(proxyConfig))
    ensures disk.faults >= old(disk.faults)
    ensures ok <==> Supported(web) && disk.faults == old(disk.faults)
  {
    var found := LookUpConfig(disk, web);
    if !found {
      return false;
    }
    ok := disk.WriteFile(paths.webConf, proxyConfig);
  }

  /** Failures are logged only; `copied` tells whether the file was put back. */
  method RestoreWebServerFromBackup(disk: Disk, world: World<Step>, paths: Paths, web: WebServer)
    returns (copied: bool)
    requires disk.Valid() && paths.Distinct()
    modifies disk, world
    ensures disk.Valid() && old(disk.history) <= disk.history
    ensures disk.OnlyTouched(|old(disk.history)|, old(disk.trees), {paths.webConf})
    ensures SameExcept(disk.trees, old(disk.trees), {paths.webConf})
    ensures copied ==> paths.webBackup in old(disk.trees)
    ensures copied && old(disk.trees)[paths.webBackup].Keys == {""} ==>
      Holds(disk.trees, paths.webConf, old(disk.trees)[paths.webBackup])
    ensures disk.faults >= old(disk.faults)
    ensures copied || disk.faults > old(disk.faults) || !Supported(web) || paths.webBackup !in old(disk.trees)
    ensures if copied then AskedLast(world.log, old(world.log), RestartWeb) else world.log == old(world.log)
  {
    var found := LookUpConfig(disk, web);
    if !found {
      return false;
    }
    found := disk.Exists(paths.webBackup);
    if !found {
      return false;
    }
    copied := disk.Copy(paths.webBackup, paths.webConf);
    if copied {
      var _ := world.Try(RestartWeb);
    }
  }

  /** One more call was made, whatever came of it. */
  ghost predicate AskedLast(log: seq<Call<Step>>, before: seq<Call<Step>>, step: Step) {
    |log| == |before| + 1 && log[..|before|] == before && log[|before|].step == step
  }

  // ------------------------------------------------------------ rollback

  ghost predicate NeverLostBetween(disk: Disk, n: nat, m: nat, paths: Paths, v3Tree: Tree)
    reads disk
  {
    n <= m <= |disk.history| && forall i | n <= i < m :: NeverLost(disk.history[i], paths, v3Tree)
  }

  /** Since the n-th state a complete copy of the v3 tree has existed. */
  ghost predicate NeverLostSince(disk: Disk, n: nat, paths: Paths, v3Tree: Tree)
    reads disk
  {
    disk.Valid() && NeverLostBetween(disk, n, |disk.history|, paths, v3Tree)
  }

  /** Where clearing the v3 path and moving the backup there can end. */
  ghost predicate RestoreEnds(was: State, paths: Paths, a: Answers, now: State) {
    exists cleared :: Cleared(was, paths.v3, a.removal, cleared)
      && MovedTo(cleared, paths.backup, paths.v3, a.move, now)
  }

  ghost predicate Cleared(was: State, p: string, r: Removal, now: State) {
    match r
    case NotSeen => now == was
    case RemoveFailed => p in was && RemovedTo(was, p, false, now)
    case Removed => p in was && RemovedTo(was, p, true, now)
  }

  /** The answers when nothing fails. */
  ghost predicate Smooth(was: State, paths: Paths, a: Answers) {
    a.removal == (if paths.v3 in was then Removed else NotSeen) && Moved(a.move)
  }

  /** They bring back the tree and nothing else. */
  lemma SmoothRestores(was: State, paths: Paths, v3Tree: Tree, a: Answers, now: State)
    requires paths.Distinct() && Holds(was, paths.backup, v3Tree)
    requires RestoreEnds(was, paths, a, now) && Smooth(was, paths, a)
    ensures Holds(now, paths.v3, v3Tree)
  {
    var cleared :| Cleared(was, paths.v3, a.removal, cleared) && MovedTo(cleared, paths.backup, paths.v3, a.move, now);
    assert SameAt(cleared, was, paths.backup) && paths.v3 !in cleared;
    OverlayHoldsAll(map[], v3Tree);
  }

  /** The v3 path is cleared. */
  method ClearV3(disk: Disk, paths: Paths) returns (removal: Removal)
    requires disk.Valid() && paths.Distinct()
    modifies disk
    ensures disk.Valid() && old(disk.history) <= disk.history
    ensures disk.OnlyTouched(|old(disk.history)|, old(disk.trees), {paths.v3})
    ensures Cleared(old(disk.trees), paths.v3, removal, disk.trees)
    ensures disk.faults >= old(disk.faults)
    ensures disk.faults == old(disk.faults) ==>
      removal == if paths.v3 in old(disk.trees) then Removed else NotSeen
  {
    var found := disk.Exists(paths.v3);
    if !found {
      return NotSeen;
    }
    var ok := disk.RemoveAll(paths.v3);
    return if ok then Removed else RemoveFailed;
  }

  /** The v3 path is cleared and the backup moved there. */
  method RestoreTree(disk: Disk, paths: Paths, ghost v3Tree: Tree) returns (a: Answers)
    requires disk.Valid() && paths.Distinct()
    requires Holds(disk.trees, paths.backup, v3Tree)
    modifies disk
    ensures old(disk.history) <= disk.history && NeverLostSince(disk, |old(disk.history)|, paths, v3Tree)
    ensures RestoreEnds(old(disk.trees), paths, a, disk.trees)
    ensures a.removal != NotSeen ==> paths.v3 in old(disk.trees)
    ensures SameAt(disk.trees, old(disk.trees), paths.webBackup)
    ensures disk.faults >= old(disk.faults)
    ensures disk.faults == old(disk.faults) ==> Smooth(old(disk.trees), paths, a)
  {
    ghost var start, n0 := disk.trees, |disk.history|;
    var removal := ClearV3(disk, paths);
    ghost var removed, n1 := disk.trees, |disk.history|;
    assert forall i | n0 <= i < n1 :: SameAt(disk.history[i], start, paths.backup);
    assert SameAt(removed, start, paths.backup) && SameAt(removed, start, paths.webBackup);
    var move := Move(disk, paths.backup, paths.v3);
    assert forall i | n1 <= i < |disk.history| :: AtEither(disk.history[i], paths.backup, paths.v3, v3Tree);
    assert SameAt(disk.trees, removed, paths.webBackup) by {
      assert disk.trees == disk.history[|disk.history| - 1];
    }
    return Answers(removal, move);
  }

  /** The answers after which the v3 path is certain to hold the tree: a copy
      only after the path was cleared of everything the tree does not have, and
      without a move only when the tree was there and was not seen. */
  ghost predicate CertainlyBack(was: State, paths: Paths, v3Tree: Tree, a: Answers) {
    match a.move
    case Renamed => true
    case CopiedAndRemoved => a.removal == Removed || At(was, paths.v3).Keys <= v3Tree.Keys
    case CopiedNotRemoved => a.removal == Removed || At(was, paths.v3).Keys <= v3Tree.Keys
    case CopyFailed => false
    case _ => a.removal == NotSeen && Holds(was, paths.v3, v3Tree)
  }

  /** And that condition is exact. The tree is a directory with a .env in it. */
  lemma RestoreExact(was: State, paths: Paths, v3Tree: Tree, a: Answers)
    requires paths.Distinct() && Holds(was, paths.backup, v3Tree) && ".env" in v3Tree
    requires a.removal != NotSeen ==> paths.v3 in was
    ensures (forall now | RestoreEnds(was, paths, a, now) :: Holds(now, paths.v3, v3Tree)) <==>
            CertainlyBack(was, paths, v3Tree, a)
  {
    if CertainlyBack(was, paths, v3Tree, a) {
      forall now | RestoreEnds(was, paths, a, now) ensures Holds(now, paths.v3, v3Tree) {
        var cleared :| Cleared(was, paths.v3, a.removal, cleared)
          && MovedTo(cleared, paths.backup, paths.v3, a.move, now);
        MoveRestores(was, cleared, now, paths, v3Tree, a);
      }
    } else {
      var now := NotRestored(was, paths, v3Tree, a);
    }
  }

  lemma MoveRestores(was: State, cleared: State, now: State, paths: Paths, v3Tree: Tree, a: Answers)
    requires paths.Distinct() && Holds(was, paths.backup, v3Tree) && ".env" in v3Tree
    requires Cleared(was, paths.v3, a.removal, cleared)
    requires MovedTo(cleared, paths.backup, paths.v3, a.move, now)
    requires CertainlyBack(was, paths, v3Tree, a)
    ensures Holds(now, paths.v3, v3Tree)
  {
    assert SameAt(cleared, was, paths.backup);
    if a.move == CopiedAndRemoved || a.move == CopiedNotRemoved {
      var under := At(cleared, paths.v3);
      assert under.Keys <= v3Tree.Keys;
      assert Overlay(under, v3Tree) == v3Tree;
      assert a.move == CopiedNotRemoved ==> SameAt(now, cleared[paths.v3 := v3Tree], paths.v3);
    }
  }

  /** Otherwise there is an outcome that does not hold it. */
  lemma NotRestored(was: State, paths: Paths, v3Tree: Tree, a: Answers) returns (now: State)
    requires paths.Distinct() && Holds(was, paths.backup, v3Tree) && ".env" in v3Tree
    requires a.removal != NotSeen ==> paths.v3 in was
    requires !CertainlyBack(was, paths, v3Tree, a)
    ensures RestoreEnds(was, paths, a, now) && !Holds(now, paths.v3, v3Tree)
  {
    var copies := a.move == CopiedAndRemoved || a.move == CopiedNotRemoved;
    var cleared := match a.removal
      case NotSeen => was
      case RemoveFailed => if copies then was else was[paths.v3 := map[]]
      case Removed => was - {paths.v3};
    assert Cleared(was, paths.v3, a.removal, cleared);
    assert SameAt(cleared, was, paths.backup);
    var under := At(cleared, paths.v3);
    now := match a.move
      case CopyFailed => cleared[paths.v3 := map[]]
      case CopiedAndRemoved => cleared[paths.v3 := Overlay(under, v3Tree)] - {paths.backup}
      case CopiedNotRemoved => cleared[paths.v3 := Overlay(under, v3Tree)]
      case _ => cleared;
    assert MovedTo(cleared, paths.backup, paths.v3, a.move, now);
    if copies {
      var k :| k in under && k !in v3Tree;
      assert k in Overlay(under, v3Tree);
    }
  }

  /** The move worked: whatever lay at the v3 path before, it has the whole tree. */
  lemma RestoredWhole(was: State, paths: Paths, v3Tree: Tree, a: Answers, now: State)
    requires paths.Distinct() && Holds(was, paths.backup, v3Tree)
    requires RestoreEnds(was, paths, a, now) && Moved(a.move)
    ensures HoldsAll(now, paths.v3, v3Tree)
  {
    var cleared :| Cleared(was, paths.v3, a.removal, cleared) && MovedTo(cleared, paths.backup, paths.v3, a.move, now);
    assert SameAt(cleared, was, paths.backup);
    OverlayHoldsAll(At(cleared, paths.v3), v3Tree);
  }

  /** The path was cleared and nothing was moved there: no tree is left at it. */
  lemma ClearedAndNotMoved(was: State, paths: Paths, a: Answers, now: State)
    requires paths.Distinct() && RestoreEnds(was, paths, a, now)
    requires a.removal == Removed && (a.move == NotTried || a.move == RenameFailed)
    ensures paths.v3 !in now
  {
  }

  /** What a rollback leaves at the v3 path. */
  ghost predicate RollbackLeaves(was: State, paths: Paths, v3Tree: Tree, a: Answers, now: State) {
    && (Moved(a.move) ==> HoldsAll(now, paths.v3, v3Tree))
    && (CertainlyBack(was, paths, v3Tree, a) && ".env" in v3Tree ==> Holds(now, paths.v3, v3Tree))
    && (a.removal == Removed && (a.move == NotTried || a.move == RenameFailed) ==> paths.v3 !in now)
  }

  lemma RestoreLeaves(was: State, paths: Paths, v3Tree: Tree, a: Answers, now: State)
    requires paths.Distinct() && Holds(was, paths.backup, v3Tree)
    requires RestoreEnds(was, paths, a, now) && (a.removal != NotSeen ==> paths.v3 in was)
    ensures RollbackLeaves(was, paths, v3Tree, a, now)
  {
    if Moved(a.move) {
      RestoredWhole(was, paths, v3Tree, a, now);
    }
    if CertainlyBack(was, paths, v3Tree, a) && ".env" in v3Tree {
      RestoreExact(was, paths, v3Tree, a);
    }
    if a.removal == Removed && (a.move == NotTried || a.move == RenameFailed) {
      ClearedAndNotMoved(was, paths, a, now);
    }
  }

  method RollbackV3toV4(disk: Disk, world: World<Step>, paths: Paths, web: WebServer, webSaved: bool,
                        ghost v3Tree: Tree)
    returns (a: Answers, copied: bool)
    requires disk.Valid() && paths.Distinct()
    requires Holds(disk.trees, paths.backup, v3Tree)
    modifies disk, world
    ensures old(disk.history) <= disk.history && NeverLostSince(disk, |old(disk.history)|, paths, v3Tree)
    ensures RollbackLeaves(old(disk.trees), paths, v3Tree, a, disk.trees)
    ensures copied ==> Moved(a.move) && webSaved && paths.webBackup in old(disk.trees)
    ensures copied && old(disk.trees)[paths.webBackup].Keys == {""} ==>
      Holds(disk.trees, paths.webConf, old(disk.trees)[paths.webBackup])
    ensures if copied then AskedLast(world.log, old(world.log), RestartWeb) else world.log == old(world.log)
    // when no call fails everything is back
    ensures disk.faults >= old(disk.faults)
    ensures disk.faults == old(disk.faults) ==>
      && Holds(disk.trees, paths.v3, v3Tree)
      && (webSaved && Supported(web) && paths.webBackup in old(disk.trees) ==> copied)
  {
    ghost var start := disk.trees;
    copied := false;
    a := RestoreTree(disk, paths, v3Tree);
    ghost var moved, n := disk.trees, |disk.history|;
    RestoreLeaves(start, paths, v3Tree, a, moved);
    if disk.faults == old(disk.faults) {
      SmoothRestores(start, paths, v3Tree, a, moved);
    }
    if Moved(a.move) && webSaved && web != NoServer {
      copied := RestoreWebServerFromBackup(disk, world, paths, web);
      assert forall i | n <= i < |disk.history| :: SameAt(disk.history[i], moved, paths.v3);
      assert SameAt(disk.trees, moved, paths.v3);
    }
  }

  // ---------------------------------------- from the backup to the verdict

  datatype Stage = Halted | NotInstalled | Unhealthy | Healthy

  /** Since the n-th state the backup, and the v3 tree if it is apart, have been intact. */
  ghost predicate IntactSince(disk: Disk, n: nat, paths: Paths, v3Tree: Tree, inPlace: bool)
    reads disk
  {
    && disk.Valid() && Intact(disk.trees, paths, v3Tree, inPlace)
    && n <= |disk.history| && forall i | n <= i < |disk.history| :: Intact(disk.history[i], paths, v3Tree, inPlace)
  }

  /** Work away from the places the migration keeps, the v3 path among them
      unless v4 is installed there. */
  method WorkElsewhere(disk: Disk, world: World<Step>, step: Step, paths: Paths, inPlace: bool, ghost v3Tree: Tree)
    returns (ok: bool)
    requires disk.Valid() && paths.Distinct() && Intact(disk.trees, paths, v3Tree, inPlace)
    modifies disk`trees, disk`history, world
    ensures old(disk.history) <= disk.history && IntactSince(disk, |old(disk.history)|, paths, v3Tree, inPlace)
    ensures SameWeb(disk.trees, old(disk.trees), paths)
    ensures world.log == old(world.log) + [Call(step, ok)]
  {
    ghost var start := disk.trees;
    var kept := if inPlace then paths.All() - {paths.v3} else paths.All();
    disk.Elsewhere(kept);
    assert paths.backup in kept && paths.webBackup in kept && paths.webConf in kept && (!inPlace ==> paths.v3 in kept);
    assert forall i | |old(disk.history)| <= i < |disk.history| ::
      (!inPlace ==> SameAt(disk.history[i], start, paths.v3)) && SameAt(disk.history[i], start, paths.backup);
    assert (!inPlace ==> SameAt(disk.trees, start, paths.v3)) && SameAt(disk.trees, start, paths.backup);
    ok := world.Try(step);
  }

  ghost predicate SameWeb(a: State, b: State, paths: Paths) {
    SameAt(a, b, paths.webConf) && SameAt(a, b, paths.webBackup)
  }

  /** The calls before v4 is installed, when they all work. */
  function Prepared(sqlite: bool): seq<Call<Step>> {
    [Call(BuildConfig, true)] + if sqlite then [Call(MigrateDatabase, true)] else []
  }

  /** The calls an installation makes, by how far it gets; whether the storage files
      were copied does not matter. */
  ghost predicate InstallRan(stage: Stage, ran: seq<Call<Step>>, sqlite: bool, storage: bool) {
    match stage
    case Halted =>
      0 < |ran| <= |Prepared(sqlite)| &&
      ran == Prepared(sqlite)[..|ran| - 1] + [Call(Prepared(sqlite)[|ran| - 1].step, false)]
    case NotInstalled => ran == Prepared(sqlite) + [Call(InstallPanel, false)]
    case _ =>
      var installed := Prepared(sqlite) + [Call(InstallPanel, true)];
      if storage then AskedLast(ran, installed, CopyStorage) else ran == installed
  }

  /** The v4 configuration, database, programs and storage files. */
  method Install(disk: Disk, world: World<Step>, paths: Paths, sqlite: bool, storage: bool, inPlace: bool,
                 ghost v3Tree: Tree)
    returns (stage: Stage, ghost ran: seq<Call<Step>>)
    requires disk.Valid() && paths.Distinct() && Intact(disk.trees, paths, v3Tree, inPlace)
    modifies disk`trees, disk`history, world
    ensures old(disk.history) <= disk.history && IntactSince(disk, |old(disk.history)|, paths, v3Tree, inPlace)
    ensures SameWeb(disk.trees, old(disk.trees), paths)
    ensures world.log == old(world.log) + ran
    ensures stage != Unhealthy && InstallRan(stage, ran, sqlite, storage)
  {
    var ok := world.Try(BuildConfig);
    ran := [Call(BuildConfig, ok)];
    if !ok {
      return Halted, ran;
    }
    if sqlite {
      ok := WorkElsewhere(disk, world, MigrateDatabase, paths, inPlace, v3Tree);
      ran := ran + [Call(MigrateDatabase, ok)];
      assert world.log == old(world.log) + ran;
      if !ok {
        return Halted, ran;
      }
    }
    ok := WorkElsewhere(disk, world, InstallPanel, paths, inPlace, v3Tree);
    ran := ran + [Call(InstallPanel, ok)];
    assert world.log == old(world.log) + ran;
    if !ok {
      return NotInstalled, ran;
    }
    if storage {
      ok := WorkElsewhere(disk, world, CopyStorage, paths, inPlace, v3Tree);     // failure is logged only
      ran := ran + [Call(CopyStorage, ok)];
    }
    return Healthy, ran;
  }

  /** The panel was started and found healthy. */
  ghost predicate IsHealthy(events: seq<Event>, on: State) {
    |events| > 1 && events[0].Started? && events[0].ok && IsPoll(events[1..], 5, true, on)
  }

  /** It did not start; or it was stopped again, because the web server's file could
      not be written or because all checks failed. */
  ghost predicate IsUnhealthy(events: seq<Event>, web: WebServer, faults: int) {
    && events != [] && events[0].Started?
    && if !events[0].ok then |events| == 1
       else
         && |events| > 1 && events[|events| - 1].Stopped?
         && if |events| == 2 then web != NoServer && (!Supported(web) || faults > 0)
            else |events| == 7 && IsPoll(events[1..6], 5, false, events[6].on)
  }

  /** What a migration did after the backup and up to the verdict: the calls of the
      installation, the restart of the web server, and the panel's events. */
  datatype Trail = Trail(ran: seq<Call<Step>>, restarts: seq<Call<Step>>, events: seq<Event>)

  /** A web server is restarted once its file has been written, before the checks. */
  ghost predicate Restarted(restarts: seq<Call<Step>>, web: WebServer, events: seq<Event>) {
    if web != NoServer && |events| > 1 && events[1].Checked?
    then |restarts| == 1 && restarts[0].step == RestartWeb
    else restarts == []
  }

  /** The web server's file is written anew and the web server restarted. */
  method PutBehind(disk: Disk, world: World<Step>, paths: Paths, web: WebServer, proxyConfig: string, inPlace: bool,
                   ghost v3Tree: Tree)
    returns (ok: bool, ghost restarts: seq<Call<Step>>)
    requires disk.Valid() && paths.Distinct() && Intact(disk.trees, paths, v3Tree, inPlace) && web != NoServer
    modifies disk, world
    ensures old(disk.history) <= disk.history && IntactSince(disk, |old(disk.history)|, paths, v3Tree, inPlace)
    ensures SameAt(disk.trees, old(disk.trees), paths.webBackup)
    ensures ok ==> Holds(disk.trees, paths.webConf, File(proxyConfig))
    ensures disk.faults >= old(disk.faults)
    ensures ok <==> Supported(web) && disk.faults == old(disk.faults)
    ensures world.log == old(world.log) + restarts
    ensures if ok then |restarts| == 1 && restarts[0].step == RestartWeb else restarts == []
  {
    ghost var start := disk.trees;
    restarts := [];
    ok := UpdateWebServerConfig(disk, paths, web, proxyConfig);
    assert forall i | |old(disk.history)| <= i < |disk.history| ::
      SameAt(disk.history[i], start, paths.v3) && SameAt(disk.history[i], start, paths.backup);
    assert SameAt(disk.trees, start, paths.v3) && SameAt(disk.trees, start, paths.backup);
    assert SameAt(disk.trees, start, paths.webBackup);
    if ok {
      var restarted := world.Try(RestartWeb);  // failure is logged only
      restarts := [Call(RestartWeb, restarted)];
    }
  }

  /** The v4 service, the web server in front of it and the health check. */
  method StartAndCheck(disk: Disk, panel: Service, world: World<Step>, paths: Paths, web: WebServer,
                       proxyConfig: string, inPlace: bool, ghost v3Tree: Tree)
    returns (ok: bool, ghost restarts: seq<Call<Step>>, ghost events: seq<Event>)
    requires disk.Valid() && paths.Distinct() && Intact(disk.trees, paths, v3Tree, inPlace)
    modifies disk, panel, world
    ensures old(disk.history) <= disk.history && IntactSince(disk, |old(disk.history)|, paths, v3Tree, inPlace)
    ensures SameAt(disk.trees, old(disk.trees), paths.webBackup)
    ensures panel.log == old(panel.log) + events && disk.faults >= old(disk.faults)
    ensures if ok then IsHealthy(events, disk.trees) else IsUnhealthy(events, web, disk.faults - old(disk.faults))
    ensures ok && web != NoServer ==> Holds(disk.trees, paths.webConf, File(proxyConfig))
    ensures world.log == old(world.log) + restarts
    ensures Restarted(restarts, web, events)
  {
    restarts := [];
    ok := panel.Start(disk);
    events := [Started(ok, disk.trees)];
    if !ok {
      return;
    }
    if web != NoServer {
      ok, restarts := PutBehind(disk, world, paths, web, proxyConfig, inPlace, v3Tree);
      if !ok {
        ok := panel.Stop(disk);
        events := events + [Stopped(ok, disk.trees)];
        return false, restarts, events;
      }
    }
    ghost var checks;
    ok, checks := panel.CheckUpTo(disk, HealthCheckRetries);
    events := events + checks;
    assert events[1..] == checks && events[1] == checks[0];
    if !ok {
      ok := panel.Stop(disk);
      events := events + [Stopped(ok, disk.trees)];
      assert events[1..6] == checks;
      return false, restarts, events;
    }
  }

  // ------------------------------------------------------------- the run

  /** Where moving the v3 path to its final place and removing the backup can end. */
  ghost predicate FinishEnds(was: State, paths: Paths, r: MoveResult, removed: bool, now: State) {
    exists moved :: MovedTo(was, paths.v3, paths.final, r, moved) && RemovedTo(moved, paths.backup, removed, now)
  }

  /** When v4 is installed over the v3 tree, the backup is removed whatever became
      of the move. However the move and the removal go, the tree is certain to be
      somewhere afterwards exactly when v4 has left all of its files as they were. */
  lemma FinishedInPlace(was: State, paths: Paths, v3Tree: Tree, r: MoveResult, removed: bool)
    requires paths.Distinct() && paths.v3 in was && paths.final !in was && v3Tree != map[]
    ensures (forall now | FinishEnds(was, paths, r, removed, now) :: NeverLost(now, paths, v3Tree)) <==>
            PartOf(v3Tree, was[paths.v3])
  {
    if PartOf(v3Tree, was[paths.v3]) {
      forall now | FinishEnds(was, paths, r, removed, now) ensures NeverLost(now, paths, v3Tree) {
        KeptByFinish(was, paths, v3Tree, r, removed, now);
      }
    } else {
      var now := LostByFinish(was, paths, v3Tree, r, removed);
    }
  }

  lemma KeptByFinish(was: State, paths: Paths, v3Tree: Tree, r: MoveResult, removed: bool, now: State)
    requires paths.Distinct() && paths.v3 in was && PartOf(v3Tree, was[paths.v3])
    requires FinishEnds(was, paths, r, removed, now)
    ensures NeverLost(now, paths, v3Tree)
  {
    var moved :| MovedTo(was, paths.v3, paths.final, r, moved) && RemovedTo(moved, paths.backup, removed, now);
    KeptByMove(was, moved, paths, v3Tree, r);
    assert SameAt(now, moved, paths.v3) && SameAt(now, moved, paths.final);
  }

  lemma KeptByMove(was: State, moved: State, paths: Paths, v3Tree: Tree, r: MoveResult)
    requires paths.Distinct() && paths.v3 in was && PartOf(v3Tree, was[paths.v3])
    requires MovedTo(was, paths.v3, paths.final, r, moved)
    ensures HoldsAll(moved, paths.v3, v3Tree) || HoldsAll(moved, paths.final, v3Tree)
  {
    OverlayHoldsAll(At(was, paths.final), was[paths.v3]);
    if r == CopyFailed {
      assert SameAt(moved, was, paths.v3);
    } else if r == CopiedNotRemoved {
      var copied := was[paths.final := Overlay(At(was, paths.final), was[paths.v3])];
      assert SameAt(moved, copied, paths.final);
    }
  }

  lemma LostByFinish(was: State, paths: Paths, v3Tree: Tree, r: MoveResult, removed: bool) returns (now: State)
    requires paths.Distinct() && paths.v3 in was && paths.final !in was && v3Tree != map[]
    requires !PartOf(v3Tree, was[paths.v3])
    ensures FinishEnds(was, paths, r, removed, now) && !NeverLost(now, paths, v3Tree)
  {
    var tree := was[paths.v3];
    var moved := match r
      case NotTried => was
      case RenameFailed => was
      case CopyFailed => was
      case Renamed => (was - {paths.v3})[paths.final := tree]
      case CopiedNotRemoved => was[paths.final := Overlay(map[], tree)]
      case CopiedAndRemoved => was[paths.final := Overlay(map[], tree)] - {paths.v3};
    assert Overlay(map[], tree) == tree;
    assert MovedTo(was, paths.v3, paths.final, r, moved);
    now := if removed || paths.backup !in moved then moved - {paths.backup} else moved[paths.backup := map[]];
    assert RemovedTo(moved, paths.backup, removed, now);
    NotPartOfEmpty(v3Tree);
  }

  lemma NotPartOfEmpty(t: Tree)
    requires t != map[]
    ensures !PartOf(t, map[])
  {
    assert t.Keys != {};
    var k :| k in t;
  }

  /** What the migration leaves when the health check has passed in state `was`. */
  ghost predicate MigrationLeaves(was: State, paths: Paths, v3Tree: Tree, moved: MoveResult, removed: bool,
                                  now: State)
  {
    && FinishEnds(was, paths, moved, removed, now)
    && (paths.v3 in was && PartOf(v3Tree, was[paths.v3]) ==> NeverLost(now, paths, v3Tree))
  }

  /** What is at the v3 path moves to /var/backups. */
  method MoveAway(disk: Disk, paths: Paths, inPlace: bool, ghost v3Tree: Tree) returns (r: MoveResult)
    requires disk.Valid() && paths.Distinct()
    requires !inPlace ==> Holds(disk.trees, paths.v3, v3Tree)
    modifies disk
    ensures disk.Valid() && old(disk.history) <= disk.history
    ensures MovedTo(old(disk.trees), paths.v3, paths.final, r, disk.trees)
    ensures !inPlace ==> NeverLostSince(disk, |old(disk.history)|, paths, v3Tree)
    ensures !inPlace ==>
      && AtEither(disk.trees, paths.v3, paths.final, v3Tree)
      && (Moved(r) ==> HoldsAll(disk.trees, paths.final, v3Tree))
    ensures SameAt(disk.trees, old(disk.trees), paths.webConf)
    ensures disk.faults >= old(disk.faults)
    ensures Moved(r) || disk.faults > old(disk.faults) || paths.v3 !in old(disk.trees)
    ensures r != NotTried ==> old(disk.marks) + [Parent(paths.final)] <= disk.marks
  {
    ghost var start, n0 := disk.trees, |disk.history|;
    var directory := disk.Set(Parent(paths.final));
    if !directory {
      return NotTried;
    }
    r := Move(disk, paths.v3, paths.final);
    OverlayHoldsAll(At(start, paths.final), v3Tree);
    assert !inPlace ==> forall i | n0 <= i < |disk.history| ::
      AtEither(disk.history[i], paths.v3, paths.final, v3Tree);
    assert disk.trees == disk.history[|disk.history| - 1];
  }

  /** And then the temporary backup goes. Both are done unless a call fails. */
  method Finish(disk: Disk, paths: Paths, inPlace: bool, ghost v3Tree: Tree) returns (r: MoveResult, removed: bool)
    requires disk.Valid() && paths.Distinct()
    requires Intact(disk.trees, paths, v3Tree, inPlace)
    modifies disk
    ensures disk.Valid() && old(disk.history) <= disk.history
    ensures MigrationLeaves(old(disk.trees), paths, v3Tree, r, removed, disk.trees)
    ensures !inPlace ==> NeverLostSince(disk, |old(disk.history)|, paths, v3Tree)
    ensures !inPlace ==>
      HoldsAll(disk.trees, paths.final, v3Tree) || (!Moved(r) && HoldsAll(disk.trees, paths.v3, v3Tree))
    ensures SameAt(disk.trees, old(disk.trees), paths.webConf)
    ensures disk.faults >= old(disk.faults)
    ensures disk.faults == old(disk.faults) ==> removed && (Moved(r) || paths.v3 !in old(disk.trees))
  {
    ghost var start := disk.trees;
    r := MoveAway(disk, paths, inPlace, v3Tree);
    ghost var after, n1 := disk.trees, |disk.history|;
    removed := disk.RemoveAll(paths.backup);
    assert forall i | n1 <= i < |disk.history| ::
      SameAt(disk.history[i], after, paths.v3) && SameAt(disk.history[i], after, paths.final);
    assert SameAt(disk.trees, after, paths.v3) && SameAt(disk.trees, after, paths.final);
    assert SameAt(disk.trees, after, paths.webConf);
    if paths.v3 in start && PartOf(v3Tree, start[paths.v3]) {
      KeptByFinish(start, paths, v3Tree, r, removed, disk.trees);
    }
  }

  /** The first steps: checks, the copy of the v3 tree, the web server's file. */
  method BackUp(disk: Disk, world: World<Step>, paths: Paths, web: WebServer, ghost v3Tree: Tree)
    returns (ok: bool, webSaved: bool)
    requires disk.Valid() && paths.Distinct() && Holds(disk.trees, paths.v3, v3Tree)
    requires paths.backup !in disk.trees
    modifies disk, world
    ensures old(disk.history) <= disk.history && NeverLostSince(disk, |old(disk.history)|, paths, v3Tree)
    ensures Holds(disk.trees, paths.v3, v3Tree) && (ok ==> Holds(disk.trees, paths.backup, v3Tree))
    ensures SameAt(disk.trees, old(disk.trees), paths.webConf)
    ensures !ok || web == NoServer ==> SameAt(disk.trees, old(disk.trees), paths.webBackup)
    ensures ok ==> old(disk.marks) + [Parent(paths.backup)] <= disk.marks
    ensures webSaved ==> paths.webConf in old(disk.trees) && paths.webBackup in disk.trees
    ensures webSaved && old(disk.trees)[paths.webConf].Keys == {""} ==>
      Holds(disk.trees, paths.webBackup, old(disk.trees)[paths.webConf])
    ensures disk.faults >= old(disk.faults) && |world.log| == |old(world.log)| + 1
    ensures world.log == old(world.log) + [Call(ReadV3, world.log[|old(world.log)|].ok)]
    ensures ok ==> world.log[|old(world.log)|].ok
    ensures ok || !world.log[|old(world.log)|].ok || disk.faults > old(disk.faults)
    ensures ok && Supported(web) && paths.webConf in old(disk.trees) ==> webSaved || disk.faults > old(disk.faults)
  {
    ghost var start, n0 := disk.trees, |disk.history|;
    webSaved := false;
    ok := world.Try(ReadV3);                   // state, .env file and its values
    if !ok {
      return;
    }
    ok := disk.Set(Parent(paths.backup));      // os.MkdirTemp
    if !ok {
      return;
    }
    ok := disk.Copy(paths.v3, paths.backup);
    ghost var saved, n1 := disk.trees, |disk.history|;
    OverlayHoldsAll(map[], v3Tree);
    assert forall i | n0 <= i < n1 :: SameAt(disk.history[i], start, paths.v3);
    assert SameAt(saved, start, paths.v3) && SameWeb(saved, start, paths) by {
      assert saved == disk.history[n1 - 1];
    }
    if !ok || web == NoServer {
      return;
    }
    webSaved := BackupWebServerConfig(disk, paths, web);
    assert forall i | n1 <= i < |disk.history| :: SameAt(disk.history[i], saved, paths.v3);
    assert SameAt(disk.trees, saved, paths.v3) && SameAt(disk.trees, saved, paths.backup);
    assert SameAt(disk.trees, saved, paths.webConf);
  }

  /** The trail up to a verdict; `faults` calls on the disk had failed. */
  ghost predicate LedTo(trail: Trail, stage: Stage, on: State, faults: int, sqlite: bool, storage: bool,
                        web: WebServer)
  {
    && InstallRan(stage, trail.ran, sqlite, storage) && Restarted(trail.restarts, web, trail.events)
    && match stage
       case Healthy => IsHealthy(trail.events, on)
       case Unhealthy => IsUnhealthy(trail.events, web, faults)
       case _ => trail.events == []
  }

  lemma LedToStill(trail: Trail, stage: Stage, on: State, some: int, more: int, sqlite: bool, storage: bool,
                   web: WebServer)
    requires LedTo(trail, stage, on, some, sqlite, storage, web) && some <= more
    ensures LedTo(trail, stage, on, more, sqlite, storage, web)
  {
  }

  /** From the backup to the health check. */
  method InstallAndCheck(disk: Disk, panel: Service, world: World<Step>, paths: Paths, web: WebServer, sqlite: bool,
                         storage: bool, inPlace: bool, proxyConfig: string, ghost v3Tree: Tree)
    returns (stage: Stage, ghost trail: Trail)
    requires disk.Valid() && paths.Distinct() && Intact(disk.trees, paths, v3Tree, inPlace)
    modifies disk, panel, world
    ensures old(disk.history) <= disk.history && IntactSince(disk, |old(disk.history)|, paths, v3Tree, inPlace)
    ensures SameAt(disk.trees, old(disk.trees), paths.webBackup)
    ensures stage in {Halted, NotInstalled} ==> SameAt(disk.trees, old(disk.trees), paths.webConf)
    ensures stage == Healthy && web != NoServer ==> Holds(disk.trees, paths.webConf, File(proxyConfig))
    ensures panel.log == old(panel.log) + trail.events
    ensures world.log == old(world.log) + trail.ran + trail.restarts
    ensures disk.faults >= old(disk.faults)
    ensures LedTo(trail, stage, disk.trees, disk.faults - old(disk.faults), sqlite, storage, web)
  {
    ghost var ran;
    stage, ran := Install(disk, world, paths, sqlite, storage, inPlace, v3Tree);
    trail := Trail(ran, [], []);
    if stage == Healthy {
      ghost var n := |disk.history|;
      var ok;
      ghost var restarts, events;
      ok, restarts, events := StartAndCheck(disk, panel, world, paths, web, proxyConfig, inPlace, v3Tree);
      assert forall i | n <= i < |disk.history| :: Intact(disk.history[i], paths, v3Tree, inPlace);
      trail := Trail(ran, restarts, events);
      stage := if ok then Healthy else Unhealthy;
    }
  }

  /** The verdict a run was concluded from. */
  function VerdictOf(outcome: Outcome): Stage
    requires !outcome.NotBackedUp?
  {
    match outcome
    case Aborted => Halted
    case RolledBack(installed, _, _) => if installed then Unhealthy else NotInstalled
    case Migrated(_, _) => Healthy
  }

  /** What a rollback from `was` leaves, tree and web server's file; `clean` is
      whether no call on the disk failed. */
  ghost predicate RolledBackFrom(was: State, paths: Paths, web: WebServer, webSaved: bool, v3Tree: Tree,
                                 outcome: Outcome, clean: bool, now: State)
    requires outcome.RolledBack?
  {
    && RollbackLeaves(was, paths, v3Tree, outcome.answers, now)
    && (outcome.web ==> webSaved && paths.webBackup in was)
    && (outcome.web && was[paths.webBackup].Keys == {""} ==> Holds(now, paths.webConf, was[paths.webBackup]))
    && (clean ==> Holds(now, paths.v3, v3Tree))
    && (clean && webSaved && Supported(web) && paths.webBackup in was ==> outcome.web)
  }

  /** What a success leaves. */
  ghost predicate MigratedFrom(was: State, paths: Paths, v3Tree: Tree, inPlace: bool, outcome: Outcome, clean: bool,
                               now: State)
    requires outcome.Migrated?
  {
    && MigrationLeaves(was, paths, v3Tree, outcome.moved, outcome.removed, now)
    && SameAt(now, was, paths.webConf)
    && (!inPlace ==>
          HoldsAll(now, paths.final, v3Tree) || (!Moved(outcome.moved) && HoldsAll(now, paths.v3, v3Tree)))
    && (clean ==> outcome.removed && (Moved(outcome.moved) || paths.v3 !in was))
  }

  /** The verdict is acted upon. */
  method Conclude(disk: Disk, world: World<Step>, paths: Paths, web: WebServer, webSaved: bool, stage: Stage,
                  inPlace: bool, ghost v3Tree: Tree)
    returns (outcome: Outcome)
    requires disk.Valid() && paths.Distinct() && Intact(disk.trees, paths, v3Tree, inPlace)
    modifies disk, world
    ensures disk.Valid() && old(disk.history) <= disk.history && disk.faults >= old(disk.faults)
    ensures !outcome.NotBackedUp? && VerdictOf(outcome) == stage
    ensures !(outcome.Migrated? && inPlace) ==> NeverLostSince(disk, |old(disk.history)|, paths, v3Tree)
    ensures outcome.Aborted? ==> disk.trees == old(disk.trees)
    ensures outcome.RolledBack? ==> RolledBackFrom(old(disk.trees), paths, web, webSaved, v3Tree, outcome,
                                                   disk.faults == old(disk.faults), disk.trees)
    ensures outcome.Migrated? ==> MigratedFrom(old(disk.trees), paths, v3Tree, inPlace, outcome,
                                               disk.faults == old(disk.faults), disk.trees)
    ensures if outcome.RolledBack? && outcome.web then AskedLast(world.log, old(world.log), RestartWeb)
            else world.log == old(world.log)
  {
    if stage == Halted {
      return Aborted;
    }
    if stage != Healthy {
      var answers, copied := RollbackV3toV4(disk, world, paths, web, webSaved, v3Tree);
      return RolledBack(stage == Unhealthy, answers, copied);
    }
    var moved, removed := Finish(disk, paths, inPlace, v3Tree);
    return Migrated(moved, removed);
  }

  /** Once the v3 tree is backed up. */
  method Migrate(disk: Disk, panel: Service, world: World<Step>, paths: Paths, web: WebServer, webSaved: bool,
                 sqlite: bool, storage: bool, inPlace: bool, proxyConfig: string, ghost v3Tree: Tree)
    returns (outcome: Outcome, ghost checked: nat, ghost installed: nat, ghost was: State, ghost trail: Trail)
    requires disk.Valid() && paths.Distinct() && Intact(disk.trees, paths, v3Tree, inPlace)
    modifies disk, panel, world
    ensures disk.Valid() && old(disk.history) <= disk.history && disk.faults >= old(disk.faults)
    ensures |old(disk.history)| <= installed <= |disk.history| && disk.history[installed - 1] == was
    ensures !outcome.NotBackedUp?
    ensures NeverLostBetween(disk, |old(disk.history)|, checked, paths, v3Tree)
    ensures checked == if outcome.Migrated? && inPlace then installed else |disk.history|
    ensures panel.log == old(panel.log) + trail.events
    ensures old(world.log) + trail.ran + trail.restarts <= world.log
    ensures LedTo(trail, VerdictOf(outcome), was, disk.faults - old(disk.faults), sqlite, storage, web)
    ensures outcome.Aborted? ==>
      Intact(disk.trees, paths, v3Tree, inPlace) && SameAt(disk.trees, old(disk.trees), paths.webConf)
    ensures Intact(was, paths, v3Tree, inPlace) && SameAt(was, old(disk.trees), paths.webBackup)
    ensures outcome.RolledBack? ==> RolledBackFrom(was, paths, web, webSaved, v3Tree, outcome,
                                                   disk.faults == old(disk.faults), disk.trees)
    ensures outcome.Migrated? ==>
      && MigratedFrom(was, paths, v3Tree, inPlace, outcome, disk.faults == old(disk.faults), disk.trees)
      && (web != NoServer ==> Holds(was, paths.webConf, File(proxyConfig)))
  {
    ghost var n := |disk.history|;
    var stage;
    stage, trail := InstallAndCheck(disk, panel, world, paths, web, sqlite, storage, inPlace, proxyConfig, v3Tree);
    was, checked, installed := disk.trees, |disk.history|, |disk.history|;
    ghost var faults := disk.faults - old(disk.faults);
    assert forall i | n <= i < installed :: Holds(disk.history[i], paths.backup, v3Tree);
    outcome := Conclude(disk, world, paths, web, webSaved, stage, inPlace, v3Tree);
    assert disk.history[installed - 1] == was;
    LedToStill(trail, stage, was, faults, disk.faults - old(disk.faults), sqlite, storage, web);
    if !(outcome.Migrated? && inPlace) {
      checked := |disk.history|;
    }
  }

  /** `inPlace` is whether v4 is installed over the v3 tree, `installed` the number
      of disk states there were when that was done or had failed and `was` the last
      of them, and `checked` the number up to which a copy of the tree is certain. */
  method HandleV3toV4(disk: Disk, panel: Service, world: World<Step>, paths: Paths, web: WebServer, sqlite: bool,
                      storage: bool, inPlace: bool, proxyConfig: string)
    returns (outcome: Outcome, ghost checked: nat, ghost installed: nat, ghost was: State, ghost trail: Trail)
    requires disk.Valid() && paths.Distinct()
    requires paths.v3 in disk.trees
    requires paths.backup !in disk.trees  // os.MkdirTemp makes a new directory
    modifies disk, panel, world
    ensures disk.Valid() && old(disk.history) <= disk.history && disk.faults >= old(disk.faults)
    ensures |old(disk.history)| <= installed <= |disk.history| && disk.history[installed - 1] == was
    // the tree is never lost; a v4 over it stays only when its check passed
    ensures NeverLostBetween(disk, |old(disk.history)|, checked, paths, old(disk.trees)[paths.v3])
    ensures checked == if outcome.Migrated? && inPlace then installed else |disk.history|
    // the calls and the panel's events tell how the run ended
    ensures panel.log == old(panel.log) + trail.events
    ensures outcome.NotBackedUp? ==>
      trail.events == [] && (world.log == old(world.log) + [Call(ReadV3, false)] || disk.faults > old(disk.faults))
    ensures !outcome.NotBackedUp? ==>
      && old(world.log) + [Call(ReadV3, true)] + trail.ran + trail.restarts <= world.log
      && LedTo(trail, VerdictOf(outcome), was, disk.faults - old(disk.faults), sqlite, storage, web)
    // without a rollback
    ensures outcome.NotBackedUp? ==> Holds(disk.trees, paths.v3, old(disk.trees)[paths.v3])
    ensures outcome.Aborted? ==> Intact(disk.trees, paths, old(disk.trees)[paths.v3], inPlace)
    ensures outcome.NotBackedUp? || outcome.Aborted? ==> SameAt(disk.trees, old(disk.trees), paths.webConf)
    ensures outcome.NotBackedUp? ==> SameAt(disk.trees, old(disk.trees), paths.webBackup)
    // with a rollback
    ensures outcome.RolledBack? ==>
      && Intact(was, paths, old(disk.trees)[paths.v3], inPlace)
      && RollbackLeaves(was, paths, old(disk.trees)[paths.v3], outcome.answers, disk.trees)
    ensures outcome.RolledBack? && outcome.web ==> paths.webConf in old(disk.trees)
    ensures outcome.RolledBack? && outcome.web && old(disk.trees)[paths.webConf].Keys == {""} ==>
      Holds(disk.trees, paths.webConf, old(disk.trees)[paths.webConf])
    ensures outcome.RolledBack? && disk.faults == old(disk.faults) ==>
      && Holds(disk.trees, paths.v3, old(disk.trees)[paths.v3])
      && (Supported(web) && paths.webConf in old(disk.trees) ==> outcome.web)
    // after the migration
    ensures outcome.Migrated? ==>
      && Intact(was, paths, old(disk.trees)[paths.v3], inPlace)
      && MigrationLeaves(was, paths, old(disk.trees)[paths.v3], outcome.moved, outcome.removed, disk.trees)
    ensures outcome.Migrated? && web != NoServer ==>
      && Holds(was, paths.webConf, File(proxyConfig)) && Holds(disk.trees, paths.webConf, File(proxyConfig))
    ensures outcome.Migrated? && !inPlace ==>
      || HoldsAll(disk.trees, paths.final, old(disk.trees)[paths.v3])
      || (!Moved(outcome.moved) && HoldsAll(disk.trees, paths.v3, old(disk.trees)[paths.v3]))
    ensures outcome.Migrated? && disk.faults == old(disk.faults) ==>
      outcome.removed && (Moved(outcome.moved) || paths.v3 !in was)
  {
    ghost var v3Tree := disk.trees[paths.v3];
    var ok, webSaved := BackUp(disk, world, paths, web, v3Tree);
    if !ok {
      return NotBackedUp, |disk.history|, |disk.history|, disk.trees, Trail([], [], []);
    }
    outcome, checked, installed, was, trail :=
      Migrate(disk, panel, world, paths, web, webSaved, sqlite, storage, inPlace, proxyConfig, v3Tree);
  }

  /** With v4 apart from the v3 tree, a rollback that returns nil has restored the
      tree exactly, and so have some that returned an error. */
  lemma RestoredApart(was: State, paths: Paths, v3Tree: Tree, a: Answers)
    requires Holds(was, paths.v3, v3Tree)
    ensures CertainlyBack(was, paths, v3Tree, a) <==>
      Moved(a.move) || a.move == CopiedNotRemoved || (a.move != CopyFailed && a.removal == NotSeen)
  {
  }
}
