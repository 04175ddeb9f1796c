/** Updating the panel's binary in place, with a backup and a health check
    (internal/actions/panel/update/panel_update_v4.go). */
module UpdateV4 {
  import opened FileSystem
  import opened Services

  datatype Paths = Paths(binary: string, backup: string, downloaded: string)
  {
    predicate Distinct() {
      binary != backup && binary != downloaded && backup != downloaded
    }
  }

  datatype Outcome =
    | DownloadFailed | StopFailed | ReplaceFailed | StartFailed
    | RestoreFailed | RestartFailed
    | RolledBack
    | Updated

  /** The calls that bring the release. */
  datatype Step = MakeDirectory | FindRelease | Fetch

  /** The bytes of the old binary are at its path or in the backup. */
  ghost predicate OldKept(s: State, paths: Paths, oldBinary: Tree) {
    Holds(s, paths.binary, oldBinary) || Holds(s, paths.backup, oldBinary)
  }

  ghost predicate OldKeptBetween(disk: Disk, n: nat, m: nat, paths: Paths, oldBinary: Tree)
    reads disk
  {
    n <= m <= |disk.history| && forall i | n <= i < m :: OldKept(disk.history[i], paths, oldBinary)
  }

  /** The last file made executable is the binary. */
  ghost predicate MadeExecutable(marks: seq<Mark>, paths: Paths) {
    marks != [] && marks[|marks| - 1] == Executable(paths.binary)
  }

  /** restoreBackupV4; setting the mode can fail but changes no bytes. It fails
      only when one of its calls does. */
  method RestoreBackup(disk: Disk, paths: Paths, ghost oldBinary: Tree) returns (ok: bool)
    requires disk.Valid() && paths.Distinct() && Holds(disk.trees, paths.backup, oldBinary)
    modifies disk
    ensures disk.Valid() && old(disk.history) <= disk.history
    ensures OldKeptBetween(disk, |old(disk.history)|, |disk.history|, paths, oldBinary)
    ensures Holds(disk.trees, paths.backup, oldBinary)
    ensures SameAt(disk.trees, old(disk.trees), paths.downloaded)
    ensures ok ==> Holds(disk.trees, paths.binary, oldBinary)
    ensures disk.faults >= old(disk.faults) && (ok <==> disk.faults == old(disk.faults))
    ensures ok ==> MadeExecutable(disk.marks, paths)
  {
    ghost var start, n0 := disk.trees, |disk.history|;
    var found := disk.Exists(paths.backup);
    if !found {
      return false;
    }
    ok := disk.Remove(paths.binary);
    ghost var removed, n1 := disk.trees, |disk.history|;
    assert forall i | n0 <= i < n1 :: SameAt(disk.history[i], start, paths.backup);
    if !ok {
      return;
    }
    OverlayHoldsAll(map[], oldBinary);
    ok := disk.Copy(paths.backup, paths.binary);
    assert forall i | n1 <= i < |disk.history| :: SameAt(disk.history[i], removed, paths.backup);
    assert SameAt(disk.trees, removed, paths.backup) && SameAt(disk.trees, removed, paths.downloaded) by {
      assert disk.trees == disk.history[|disk.history| - 1];
    }
    if ok {
      ok := disk.Set(Executable(paths.binary));
    }
  }

  /** The old binary or the new one is installed. */
  ghost predicate InPlace(s: State, paths: Paths, oldBinary: Tree) {
    || Holds(s, paths.binary, oldBinary)
    || (paths.downloaded in s && Holds(s, paths.binary, s[paths.downloaded]))
  }

  /** The new binary takes the free place; a failed copy is undone at once. */
  method PutNew(disk: Disk, paths: Paths, ghost oldBinary: Tree) returns (ok: bool)
    requires disk.Valid() && paths.Distinct()
    requires Holds(disk.trees, paths.backup, oldBinary) && paths.binary !in disk.trees
    modifies disk
    ensures disk.Valid() && old(disk.history) <= disk.history
    ensures OldKeptBetween(disk, |old(disk.history)|, |disk.history|, paths, oldBinary)
    ensures SameAt(disk.trees, old(disk.trees), paths.downloaded)
    ensures Holds(disk.trees, paths.backup, oldBinary)
    ensures ok ==> paths.downloaded in disk.trees && Holds(disk.trees, paths.binary, disk.trees[paths.downloaded])
    ensures disk.faults >= old(disk.faults) && (ok <==> disk.faults == old(disk.faults))
    ensures disk.faults == old(disk.faults) + 1 ==> InPlace(disk.trees, paths, oldBinary)
    ensures ok ==> MadeExecutable(disk.marks, paths)
  {
    ghost var start, n0 := disk.trees, |disk.history|;
    ok := disk.Copy(paths.downloaded, paths.binary);
    ghost var placed, n1 := disk.trees, |disk.history|;
    assert forall i | n0 <= i < n1 :: SameAt(disk.history[i], start, paths.backup);
    assert SameAt(placed, start, paths.backup) && SameAt(placed, start, paths.downloaded) by {
      assert placed == disk.history[n1 - 1];
    }
    if !ok {
      var _ := RestoreBackup(disk, paths, oldBinary);
      return;
    }
    OverlayHoldsAll(map[], start[paths.downloaded]);
    ok := disk.Set(Executable(paths.binary));
  }

  /** The old binary is copied to the backup, removed, and replaced. */
  method BackupAndReplace(disk: Disk, paths: Paths, ghost oldBinary: Tree) returns (ok: bool)
    requires disk.Valid() && paths.Distinct()
    requires Holds(disk.trees, paths.binary, oldBinary) && oldBinary.Keys == {""}
    modifies disk
    ensures disk.Valid() && old(disk.history) <= disk.history
    ensures OldKeptBetween(disk, |old(disk.history)|, |disk.history|, paths, oldBinary)
    ensures SameAt(disk.trees, old(disk.trees), paths.downloaded)
    ensures OldKept(disk.trees, paths, oldBinary)
    ensures ok ==> Holds(disk.trees, paths.backup, oldBinary)
    ensures ok ==> paths.downloaded in disk.trees && Holds(disk.trees, paths.binary, disk.trees[paths.downloaded])
    // it fails only when a call does, and a single failure leaves a binary in place
    ensures disk.faults >= old(disk.faults) && (ok <==> disk.faults == old(disk.faults))
    ensures disk.faults == old(disk.faults) + 1 ==> InPlace(disk.trees, paths, oldBinary)
    ensures ok ==> MadeExecutable(disk.marks, paths)
  {
    ghost var start, n0 := disk.trees, |disk.history|;
    ok := disk.Copy(paths.binary, paths.backup);
    ghost var saved, n1 := disk.trees, |disk.history|;
    assert forall i | n0 <= i < n1 :: SameAt(disk.history[i], start, paths.binary);
    assert SameAt(saved, start, paths.binary) && SameAt(saved, start, paths.downloaded) by {
      assert saved == disk.history[n1 - 1];
    }
    if !ok {
      return;
    }
    ok := disk.Remove(paths.binary);
    assert forall i | n1 <= i < |disk.history| :: SameAt(disk.history[i], saved, paths.backup);
    if !ok {
      return;
    }
    ok := PutNew(disk, paths, oldBinary);
  }

  /** After a failed health check; only a failed restart comes after the restore. */
  method RollBack(disk: Disk, panel: Service, paths: Paths, ghost oldBinary: Tree)
    returns (outcome: Outcome, ghost tail: seq<Event>)
    requires disk.Valid() && paths.Distinct() && Holds(disk.trees, paths.backup, oldBinary)
    modifies disk, panel
    ensures disk.Valid() && old(disk.history) <= disk.history && panel.log == old(panel.log) + tail
    ensures OldKeptBetween(disk, |old(disk.history)|, |disk.history|, paths, oldBinary)
    ensures SameAt(disk.trees, old(disk.trees), paths.downloaded)
    ensures OldKept(disk.trees, paths, oldBinary)
    ensures IsUndo(outcome, tail, paths, oldBinary)
    ensures outcome != RestoreFailed ==>
      Holds(disk.trees, paths.binary, oldBinary) && MadeExecutable(disk.marks, paths)
    ensures disk.faults >= old(disk.faults) && (outcome == RestoreFailed <==> disk.faults > old(disk.faults))
  {
    var stopped := panel.Stop(disk);
    tail := [Stopped(stopped, disk.trees)];
    var ok := RestoreBackup(disk, paths, oldBinary);
    if !ok {
      return RestoreFailed, tail;
    }
    ok := panel.Start(disk);
    tail := tail + [Started(ok, disk.trees)];
    return if ok then RolledBack else RestartFailed, tail;
  }

  // ------------------------------------------- what the panel goes through

  /** A rollback: stopped, and started again if the old binary is back in place. */
  ghost predicate IsUndo(outcome: Outcome, log: seq<Event>, paths: Paths, oldBinary: Tree) {
    && log != [] && log[0].Stopped?
    && match outcome
       case RestoreFailed => |log| == 1
       case RestartFailed => |log| == 2 && StartedOn(log[1], false, paths, oldBinary)
       case RolledBack => |log| == 2 && StartedOn(log[1], true, paths, oldBinary)
       case _ => false
  }

  ghost predicate StartedOn(e: Event, ok: bool, paths: Paths, binary: Tree) {
    e.Started? && e.ok == ok && Holds(e.on, paths.binary, binary)
  }

  /** From the replacement on. */
  ghost predicate IsStartLog(outcome: Outcome, log: seq<Event>, paths: Paths, oldBinary: Tree, newBinary: Tree) {
    match outcome
    case ReplaceFailed => log == []
    case StartFailed => |log| == 1 && StartedOn(log[0], false, paths, newBinary)
    case Updated => |log| > 1 && StartedOn(log[0], true, paths, newBinary) && IsPoll(log[1..], 5, true, log[0].on)
    case _ =>
      && |log| > 6 && StartedOn(log[0], true, paths, newBinary)
      && IsPoll(log[1..6], 5, false, log[0].on) && IsUndo(outcome, log[6..], paths, oldBinary)
  }

  /** A whole run, by how it ends. */
  ghost predicate IsRunLog(outcome: Outcome, log: seq<Event>, paths: Paths, oldBinary: Tree, newBinary: Tree) {
    match outcome
    case DownloadFailed => log == []
    case StopFailed => |log| == 1 && StoppedWith(log[0], false, paths, oldBinary, newBinary)
    case _ =>
      && log != [] && StoppedWith(log[0], true, paths, oldBinary, newBinary)
      && IsStartLog(outcome, log[1..], paths, oldBinary, newBinary)
  }

  /** When the panel was stopped, the old binary was still in place and the new
      one had been downloaded. */
  ghost predicate StoppedWith(e: Event, ok: bool, paths: Paths, oldBinary: Tree, newBinary: Tree) {
    e.Stopped? && e.ok == ok && Holds(e.on, paths.binary, oldBinary) && Holds(e.on, paths.downloaded, newBinary)
  }

  lemma UndoneLog(outcome: Outcome, started: Event, checks: seq<Event>, tail: seq<Event>, paths: Paths,
                  oldBinary: Tree, newBinary: Tree)
    requires StartedOn(started, true, paths, newBinary) && IsPoll(checks, 5, false, started.on)
    requires IsUndo(outcome, tail, paths, oldBinary)
    ensures IsStartLog(outcome, [started] + checks + tail, paths, oldBinary, newBinary)
  {
    var log := [started] + checks + tail;
    assert log[1..6] == checks && log[6..] == tail;
  }

  /** Which binary is installed at the end of a run on whose disk so many calls
      failed; they decide whether the end was the one that was due. */
  ghost predicate Leaves(outcome: Outcome, now: State, faults: int, paths: Paths, oldBinary: Tree, newBinary: Tree) {
    faults >= 0 &&
    match outcome
    case DownloadFailed => true
    case StopFailed => Holds(now, paths.binary, oldBinary)
    case ReplaceFailed => faults > 0 && (faults == 1 ==> OneInPlace(now, paths, oldBinary, newBinary))
    case StartFailed => Holds(now, paths.binary, newBinary)
    case RestoreFailed => faults > 0
    case RestartFailed => Holds(now, paths.binary, oldBinary)
    case RolledBack => Holds(now, paths.binary, oldBinary)
    case Updated => Holds(now, paths.binary, newBinary) && (faults == 0 ==> paths.backup !in now)
  }

  ghost predicate OneInPlace(s: State, paths: Paths, oldBinary: Tree, newBinary: Tree) {
    Holds(s, paths.binary, oldBinary) || Holds(s, paths.binary, newBinary)
  }

  /** With the new binary in place: start it, check it, and keep it or roll back.
      `passed` is the number of disk states there had been when the check
      succeeded; up to then the old binary is kept. */
  method StartAndCheck(disk: Disk, panel: Service, paths: Paths, ghost oldBinary: Tree, ghost newBinary: Tree)
    returns (outcome: Outcome, ghost passed: nat, ghost tail: seq<Event>)
    requires disk.Valid() && paths.Distinct()
    requires Holds(disk.trees, paths.backup, oldBinary) && Holds(disk.trees, paths.binary, newBinary)
    requires MadeExecutable(disk.marks, paths)
    modifies disk, panel
    ensures disk.Valid() && old(disk.history) <= disk.history && panel.log == old(panel.log) + tail
    ensures OldKeptBetween(disk, |old(disk.history)|, passed, paths, oldBinary)
    ensures outcome != Updated ==> passed == |disk.history| && OldKept(disk.trees, paths, oldBinary)
    ensures outcome in {StartFailed, RestoreFailed, RestartFailed, RolledBack, Updated}
    ensures IsStartLog(outcome, tail, paths, oldBinary, newBinary)
    ensures Leaves(outcome, disk.trees, disk.faults - old(disk.faults), paths, oldBinary, newBinary)
    ensures outcome in {StartFailed, RestartFailed, RolledBack, Updated} ==> MadeExecutable(disk.marks, paths)
    ensures outcome == Updated ==> CheckedAt(disk, passed, tail) && OldKept(tail[|tail| - 1].on, paths, oldBinary)
  {
    ghost var placed := disk.trees;
    passed := |disk.history|;
    var ok := panel.Start(disk);
    if !ok {
      return StartFailed, passed, [Started(false, placed)];
    }
    ghost var checks;
    ok, checks := panel.CheckUpTo(disk, HealthCheckRetries);
    tail := [Started(true, placed)] + checks;
    assert tail[1..] == checks;
    if ok {
      var _ := disk.Remove(paths.backup);
      assert SameAt(disk.trees, placed, paths.binary);
      return Updated, passed, tail;
    }
    ghost var undo;
    outcome, undo := RollBack(disk, panel, paths, oldBinary);
    passed := |disk.history|;
    tail := tail + undo;
    UndoneLog(outcome, Started(true, placed), checks, undo, paths, oldBinary, newBinary);
  }

  /** With the panel stopped: replace its binary, start it and check it. */
  method ReplaceAndStart(disk: Disk, panel: Service, paths: Paths, ghost oldBinary: Tree, ghost newBinary: Tree)
    returns (outcome: Outcome, ghost passed: nat, ghost tail: seq<Event>)
    requires disk.Valid() && paths.Distinct() && oldBinary.Keys == {""}
    requires Holds(disk.trees, paths.binary, oldBinary) && Holds(disk.trees, paths.downloaded, newBinary)
    modifies disk, panel
    ensures disk.Valid() && old(disk.history) <= disk.history && panel.log == old(panel.log) + tail
    ensures OldKeptBetween(disk, |old(disk.history)|, passed, paths, oldBinary)
    ensures outcome != Updated ==> passed == |disk.history| && OldKept(disk.trees, paths, oldBinary)
    ensures outcome !in {DownloadFailed, StopFailed} && IsStartLog(outcome, tail, paths, oldBinary, newBinary)
    ensures Leaves(outcome, disk.trees, disk.faults - old(disk.faults), paths, oldBinary, newBinary)
    ensures outcome in {StartFailed, RestartFailed, RolledBack, Updated} ==> MadeExecutable(disk.marks, paths)
    ensures outcome == Updated ==> CheckedAt(disk, passed, tail) && OldKept(tail[|tail| - 1].on, paths, oldBinary)
  {
    var ok := BackupAndReplace(disk, paths, oldBinary);
    if !ok {
      return ReplaceFailed, |disk.history|, [];
    }
    outcome, passed, tail := StartAndCheck(disk, panel, paths, oldBinary, newBinary);
  }

  /** Everything after the download. */
  method StopReplaceStart(disk: Disk, panel: Service, paths: Paths, ghost oldBinary: Tree, ghost newBinary: Tree)
    returns (outcome: Outcome, ghost passed: nat, ghost tail: seq<Event>)
    requires disk.Valid() && paths.Distinct() && oldBinary.Keys == {""}
    requires Holds(disk.trees, paths.binary, oldBinary) && Holds(disk.trees, paths.downloaded, newBinary)
    modifies disk, panel
    ensures disk.Valid() && old(disk.history) <= disk.history && panel.log == old(panel.log) + tail
    ensures OldKeptBetween(disk, |old(disk.history)|, passed, paths, oldBinary)
    ensures outcome != Updated ==> passed == |disk.history| && OldKept(disk.trees, paths, oldBinary)
    ensures outcome != DownloadFailed && IsRunLog(outcome, tail, paths, oldBinary, newBinary)
    ensures Leaves(outcome, disk.trees, disk.faults - old(disk.faults), paths, oldBinary, newBinary)
    ensures outcome in {StartFailed, RestartFailed, RolledBack, Updated} ==> MadeExecutable(disk.marks, paths)
    ensures outcome == Updated ==> CheckedAt(disk, passed, tail) && OldKept(tail[|tail| - 1].on, paths, oldBinary)
  {
    passed := |disk.history|;
    var ok := panel.Stop(disk);
    tail := [Stopped(ok, disk.trees)];
    if !ok {
      return StopFailed, passed, tail;
    }
    ghost var more;
    outcome, passed, more := ReplaceAndStart(disk, panel, paths, oldBinary, newBinary);
    assert (tail + more)[1..] == more;
    tail := tail + more;
  }

  /** downloadRelease works in a new temporary directory. */
  method Download(disk: Disk, world: World<Step>, paths: Paths) returns (ok: bool)
    requires disk.Valid() && paths.Distinct()
    modifies disk, world
    ensures disk.Valid() && old(disk.history) <= disk.history
    ensures forall i | |old(disk.history)| <= i < |disk.history| ::
      SameAt(disk.history[i], old(disk.trees), paths.binary)
    ensures SameAt(disk.trees, old(disk.trees), paths.binary)
    ensures old(world.log) < world.log
    ensures ok ==> world.log == old(world.log) + Downloaded() && paths.downloaded in disk.trees
    ensures !ok ==>
      || !world.log[|world.log| - 1].ok
      || paths.downloaded !in disk.trees || disk.faults > old(disk.faults)
    ensures disk.faults >= old(disk.faults) && (ok ==> disk.faults == old(disk.faults))
  {
    ok := world.Try(MakeDirectory);
    if !ok {
      return;
    }
    ok := world.Try(FindRelease);
    if !ok {
      return;
    }
    disk.Elsewhere({paths.binary, paths.backup});
    ok := world.Try(Fetch);
    if ok {
      ok := disk.Exists(paths.downloaded);
    }
  }

  /** The steps of a complete download. */
  function Downloaded(): seq<Call<Step>> {
    [Call(MakeDirectory, true), Call(FindRelease, true), Call(Fetch, true)]
  }

  /** The deferred removal of the temporary directory. */
  method CleanUp(disk: Disk, paths: Paths)
    requires disk.Valid() && paths.Distinct()
    modifies disk`trees, disk`history, disk`faults
    ensures disk.Valid() && old(disk.history) <= disk.history
    ensures forall i | |old(disk.history)| <= i < |disk.history| ::
      SameAt(disk.history[i], old(disk.trees), paths.binary) && SameAt(disk.history[i], old(disk.trees), paths.backup)
    ensures SameAt(disk.trees, old(disk.trees), paths.binary) && SameAt(disk.trees, old(disk.trees), paths.backup)
    ensures disk.faults >= old(disk.faults) && (disk.faults == old(disk.faults) ==> paths.downloaded !in disk.trees)
  {
    ghost var start := disk.trees;
    var _ := disk.RemoveAll(paths.downloaded);
    assert forall i | |old(disk.history)| <= i < |disk.history| ::
      SameAt(disk.history[i], start, paths.binary) && SameAt(disk.history[i], start, paths.backup);
    assert disk.trees == disk.history[|disk.history| - 1];
  }

  /** Everything after the download, and the clearing away. */
  method UpdateDownloaded(disk: Disk, panel: Service, paths: Paths, ghost oldBinary: Tree, ghost newBinary: Tree)
    returns (outcome: Outcome, ghost passed: nat, ghost tail: seq<Event>)
    requires disk.Valid() && paths.Distinct() && oldBinary.Keys == {""}
    requires Holds(disk.trees, paths.binary, oldBinary) && Holds(disk.trees, paths.downloaded, newBinary)
    modifies disk, panel
    ensures disk.Valid() && old(disk.history) <= disk.history && panel.log == old(panel.log) + tail
    ensures OldKeptBetween(disk, |old(disk.history)|, passed, paths, oldBinary)
    ensures outcome != Updated ==> passed == |disk.history| && OldKept(disk.trees, paths, oldBinary)
    ensures outcome != DownloadFailed && IsRunLog(outcome, tail, paths, oldBinary, newBinary)
    ensures Leaves(outcome, disk.trees, disk.faults - old(disk.faults), paths, oldBinary, newBinary)
    ensures outcome in {StartFailed, RestartFailed, RolledBack, Updated} ==> MadeExecutable(disk.marks, paths)
    ensures disk.faults == old(disk.faults) ==> paths.downloaded !in disk.trees
    ensures outcome == Updated ==> CheckedAt(disk, passed, tail) && OldKept(tail[|tail| - 1].on, paths, oldBinary)
  {
    outcome, passed, tail := StopReplaceStart(disk, panel, paths, oldBinary, newBinary);
    CleanUp(disk, paths);
    if outcome != Updated {
      passed := |disk.history|;
    }
  }

  /** The panel's log tells how the run ended, and only calls that failed keep it
      from the end it should have. */
  method HandleV4(disk: Disk, panel: Service, world: World<Step>, paths: Paths)
    returns (outcome: Outcome, ghost passed: nat, ghost newBinary: Tree, ghost tail: seq<Event>)
    requires disk.Valid() && paths.Distinct()
    requires paths.binary in disk.trees && disk.trees[paths.binary].Keys == {""}
    modifies disk, panel, world
    ensures disk.Valid() && old(disk.history) <= disk.history && old(world.log) < world.log
    ensures panel.log == old(panel.log) + tail
    ensures OldKeptBetween(disk, |old(disk.history)|, passed, paths, old(disk.trees)[paths.binary])
    ensures outcome != Updated ==> passed == |disk.history| && OldKept(disk.trees, paths, old(disk.trees)[paths.binary])
    ensures IsRunLog(outcome, tail, paths, old(disk.trees)[paths.binary], newBinary)
    // which binary is installed
    ensures outcome in {DownloadFailed, StopFailed, RestartFailed, RolledBack} ==>
      Holds(disk.trees, paths.binary, old(disk.trees)[paths.binary])
    ensures outcome in {StartFailed, Updated} ==> Holds(disk.trees, paths.binary, newBinary)
    ensures outcome in {StartFailed, RestartFailed, RolledBack, Updated} ==> MadeExecutable(disk.marks, paths)
    ensures outcome == Updated ==>
      CheckedAt(disk, passed, tail) && OldKept(tail[|tail| - 1].on, paths, old(disk.trees)[paths.binary])
    // what made it fail
    ensures outcome == DownloadFailed ==>
      !world.log[|world.log| - 1].ok || paths.downloaded !in disk.trees || disk.faults > old(disk.faults)
    ensures outcome != DownloadFailed ==> world.log == old(world.log) + Downloaded()
    ensures disk.faults >= old(disk.faults)
    ensures outcome in {ReplaceFailed, RestoreFailed} ==> disk.faults > old(disk.faults)
    ensures outcome == ReplaceFailed && disk.faults == old(disk.faults) + 1 ==>
      OneInPlace(disk.trees, paths, old(disk.trees)[paths.binary], newBinary)
    // what is cleared away
    ensures outcome != DownloadFailed && disk.faults == old(disk.faults) ==>
      paths.downloaded !in disk.trees && (outcome == Updated ==> paths.backup !in disk.trees)
  {
    ghost var oldBinary := disk.trees[paths.binary];
    var ok := Download(disk, world, paths);
    newBinary := At(disk.trees, paths.downloaded);
    if !ok {
      return DownloadFailed, |disk.history|, newBinary, [];
    }
    outcome, passed, tail := UpdateDownloaded(disk, panel, paths, oldBinary, newBinary);
  }
}
