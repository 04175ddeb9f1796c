/** The service a protocol stops, starts and asks for its health. Every call may
    fail; the log keeps what happened and what was on the disk at the time. */
module Services {
  import opened FileSystem

  datatype Event =
    | Stopped(ok: bool, on: State)
    | Started(ok: bool, on: State)
    | Seen(ok: bool, on: State)        // whether its process was found
    | Checked(ok: bool, on: State)

  /** How often either panel update asks for the panel's health. */
  const HealthCheckRetries := 5

  class Service {
    ghost var log: seq<Event>

    constructor ()
      ensures log == []
    {
      log := [];
    }

    method Stop(disk: Disk) returns (ok: bool)
      modifies this
      ensures log == old(log) + [Stopped(ok, disk.trees)]
    {
      ok := *;
      log := log + [Stopped(ok, disk.trees)];
    }

    method Start(disk: Disk) returns (ok: bool)
      modifies this
      ensures log == old(log) + [Started(ok, disk.trees)]
    {
      ok := *;
      log := log + [Started(ok, disk.trees)];
    }

    method Look(disk: Disk) returns (ok: bool)
      modifies this
      ensures log == old(log) + [Seen(ok, disk.trees)]
    {
      ok := *;
      log := log + [Seen(ok, disk.trees)];
    }

    method Check(disk: Disk) returns (ok: bool)
      modifies this
      ensures log == old(log) + [Checked(ok, disk.trees)]
    {
      ok := *;
      log := log + [Checked(ok, disk.trees)];
    }

    /** Checks until one succeeds, at most `limit` times. */
    method CheckUpTo(disk: Disk, limit: nat) returns (ok: bool, ghost checks: seq<Event>)
      modifies this
      ensures log == old(log) + checks
      ensures IsPoll(checks, limit, ok, disk.trees)
    {
      checks := [];
      var attempt := 0;
      while attempt < limit
        invariant attempt <= limit && |checks| == attempt
        invariant log == old(log) + checks
        invariant forall i | 0 <= i < |checks| :: checks[i] == Checked(false, disk.trees)
      {
        ok := Check(disk);
        checks := checks + [Checked(ok, disk.trees)];
        if ok {
          return;
        }
        attempt := attempt + 1;
      }
      ok := false;
    }
  }

  /** A call to the rest of the world, and how it went. */
  datatype Call<Step> = Call(step: Step, ok: bool)

  /** Whatever is neither on the disk nor the service's: each call works or fails,
      and the log keeps which were made. */
  class World<Step> {
    ghost var log: seq<Call<Step>>

    constructor ()
      ensures log == []
    {
      log := [];
    }

    method Try(step: Step) returns (ok: bool)
      modifies this
      ensures log == old(log) + [Call(step, ok)]
    {
      ok := *;
      log := log + [Call(step, ok)];
    }
  }

  /** At most `limit` checks, all failed but the last one, which decides; a poll
      that fails has used them all. */
  ghost predicate IsPoll(checks: seq<Event>, limit: nat, ok: bool, on: State) {
    && |checks| <= limit
    && (ok ==> checks != [] && checks[|checks| - 1] == Checked(true, on))
    && (!ok ==> |checks| == limit)
    && forall i | 0 <= i < |checks| && (ok ==> i < |checks| - 1) :: checks[i] == Checked(false, on)
  }

  /** The last thing that happened is a check that succeeded. */
  ghost predicate LastCheckPassed(log: seq<Event>) {
    log != [] && log[|log| - 1].Checked? && log[|log| - 1].ok
  }

  /** The last thing that happened is a check that passed, in the last of the
      first n states of the disk. */
  ghost predicate CheckedAt(disk: Disk, n: nat, log: seq<Event>)
    reads disk
  {
    LastCheckPassed(log) && 0 < n <= |disk.history| && disk.history[n - 1] == log[|log| - 1].on
  }
}
