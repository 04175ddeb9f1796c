/** Switching a registered daemon to the gRPC protocol, with a rollback
    (internal/actions/daemon/update/switch_to_grpc.go). */
module SwitchGRPC {
  import opened Text
  import opened FileSystem
  import opened Services
  import opened DaemonConfig

  const VerificationPollMaxAttempts := 10

  /** Where the configuration and its backup lie, the address given on the
      command line ("" for none), and the libraries; certPath resolves a path
      against the directory of the configuration. */
  datatype Deps = Deps(
    cfgPath: string, backupPath: string, explicitAddress: string,
    yaml: Yaml, deriveAddress: string -> Option<string>, certPath: string -> string)

  /** What is tried before anything is changed. */
  datatype Probe =
    | Dial(address: string)
    | Handshake(ca: string, chain: string, key: string, address: string)
    | LookUpBinary

  datatype Outcome =
    | AlreadyOn
    | Refused           // an error before the configuration was backed up
    | RolledBack        // an error, with the old configuration and daemon back
    | Critical          // an error, and the rollback failed
    | SwitchedOn

  // -------------------------------------------------- backup and restore

  method Backup(disk: Disk, path: string, backupPath: string) returns (ok: bool)
    requires disk.Valid() && path != backupPath && path in disk.trees && disk.trees[path].Keys == {""}
    modifies disk
    ensures disk.Valid() && old(disk.history) <= disk.history
    ensures forall i | |old(disk.history)| <= i < |disk.history| :: SameAt(disk.history[i], old(disk.trees), path)
    ensures SameAt(disk.trees, old(disk.trees), path)
    ensures ok ==> Holds(disk.trees, backupPath, old(disk.trees)[path])
    ensures disk.faults >= old(disk.faults)
    ensures !ok ==> backupPath in old(disk.trees) || disk.faults > old(disk.faults)
    ensures !ok ==> backupPath in disk.trees ==> backupPath in old(disk.trees) || disk.faults > old(disk.faults) + 1
  {
    if backupPath in disk.trees {              // O_EXCL
      return false;
    }
    ok := disk.Attempt();
    if !ok {
      return;
    }
    ghost var start, n0 := disk.trees, |disk.history|;
    ok := disk.Copy(path, backupPath);
    ghost var copied, n1 := disk.trees, |disk.history|;
    assert forall i | n0 <= i < n1 :: SameAt(disk.history[i], start, path);
    assert SameAt(copied, start, path) by {
      assert copied == disk.history[n1 - 1];
    }
    if !ok {
      var _ := disk.Remove(backupPath);
      assert forall i | n1 <= i < |disk.history| :: SameAt(disk.history[i], copied, path);
      assert SameAt(disk.trees, copied, path);
    }
  }

  /** Since the n-th state the backup has held the original. */
  ghost predicate BackupHolds(disk: Disk, n: nat, backupPath: string, original: Tree)
    reads disk
  {
    && disk.Valid() && Holds(disk.trees, backupPath, original)
    && n <= |disk.history| && forall i | n <= i < |disk.history| :: Holds(disk.history[i], backupPath, original)
  }

  /** Stopped; and if the configuration is back, started. */
  ghost predicate IsUndo(outcome: Outcome, undo: seq<Event>, now: State, deps: Deps, original: Tree) {
    && undo != [] && undo[0].Stopped?
    && (if outcome == RolledBack || |undo| > 1
        then |undo| == 2 && undo[1] == Started(outcome == RolledBack, now) && Holds(now, deps.cfgPath, original)
        else outcome == Critical)
  }

  /** The rollback closure: stop, restore, start. */
  method RollBack(disk: Disk, daemon: Service, deps: Deps, ghost original: Tree)
    returns (outcome: Outcome, ghost undo: seq<Event>)
    requires disk.Valid() && deps.cfgPath != deps.backupPath
    requires Holds(disk.trees, deps.backupPath, original) && original.Keys == {""}
    modifies disk, daemon
    ensures old(disk.history) <= disk.history && BackupHolds(disk, |old(disk.history)|, deps.backupPath, original)
    ensures daemon.log == old(daemon.log) + undo
    ensures outcome in {RolledBack, Critical} && IsUndo(outcome, undo, disk.trees, deps, original)
    ensures disk.faults == old(disk.faults) + if |undo| == 1 then 1 else 0
  {
    ghost var start := disk.trees;
    var ok := daemon.Stop(disk);
    undo := [Stopped(ok, disk.trees)];
    ok := disk.Copy(deps.backupPath, deps.cfgPath);          // Restore
    assert forall i | |old(disk.history)| <= i < |disk.history| :: SameAt(disk.history[i], start, deps.backupPath);
    assert SameAt(disk.trees, start, deps.backupPath) by {
      assert disk.trees == disk.history[|disk.history| - 1];
    }
    if !ok {
      return Critical, undo;
    }
    ok := daemon.Start(disk);
    undo := undo + [Started(ok, disk.trees)];
    return if ok then RolledBack else Critical, undo;
  }

  // ------------------------------------------------- before the backup

  predicate HasText(root: Node, key: string) {
    Read(root, key).Found? && Read(root, key).text != ""
  }

  /** Registered with its key, identity and certificates. */
  predicate Registered(root: Node, yaml: Yaml) {
    && HasText(root, "api_key")
    && HasText(root, "ca_certificate_file") && HasText(root, "certificate_chain_file")
    && HasText(root, "private_key_file")
    && Read(root, "ds_id").Found? && yaml.toUint(Read(root, "ds_id").text).Some?
    && yaml.toUint(Read(root, "ds_id").text).value != 0
  }

  /** The address that was given, or else the one derived from api_host. */
  predicate Addressed(root: Node, deps: Deps, address: Option<string>) {
    if deps.explicitAddress != "" then address == Some(deps.explicitAddress)
    else if HasText(root, "api_host") then address == deps.deriveAddress(Read(root, "api_host").text)
    else address == None
  }

  /** Nothing in the configuration stands in the way. */
  ghost predicate Eligible(root: Node, deps: Deps) {
    && Read(root, "api_host") != Unreadable && Registered(root, deps.yaml)
    && exists address :: Addressed(root, deps, Some(address))
  }

  /** The probes that have to succeed, with the daemon's certificates. */
  function Probes(root: Node, deps: Deps, address: string): seq<Call<Probe>>
    requires Registered(root, deps.yaml)
  {
    var ca := deps.certPath(Read(root, "ca_certificate_file").text);
    var chain := deps.certPath(Read(root, "certificate_chain_file").text);
    var key := deps.certPath(Read(root, "private_key_file").text);
    [Call(Dial(address), true), Call(Handshake(ca, chain, key, address), true), Call(LookUpBinary, true)]
  }

  // --------------------------------------------------------- the switch

  /** The edit, in memory. */
  method Edit(cfg: ConfigFile, address: string) returns (ok: bool)
    modifies cfg
    ensures ok <==> Switched(old(cfg.root), address, cfg.yaml.readQuoted).Some?
    ensures ok ==> Switched(old(cfg.root), address, cfg.yaml.readQuoted) == Some(cfg.root)
  {
    ok := cfg.EnsureGRPCEnabled(address);
    if !ok {
      return;
    }
    ghost var enabled := cfg.root.fields;
    for i := 0 to |LegacyKeys|
      invariant cfg.root == Mapping(DropKeys(enabled, LegacyKeys[..i]))
    {
      assert LegacyKeys[..i + 1][..i] == LegacyKeys[..i];
      ok := cfg.DeleteKey(LegacyKeys[i]);
      if !ok {
        return;
      }
    }
    assert LegacyKeys[..|LegacyKeys|] == LegacyKeys;
    DropLegacyKeys(enabled);
  }

  /** Stopped and started once, found running, then verified within the allowed
      attempts. */
  ghost predicate IsSwitchTail(tail: seq<Event>, on: State) {
    && |tail| > 3 && tail[0] == Stopped(true, on) && tail[1] == Started(true, on) && tail[2] == Seen(true, on)
    && IsPoll(tail[3..], 10, true, on)
  }

  /** The same up to the first thing that failed, or all checks. */
  ghost predicate Stumbled(tail: seq<Event>, on: State) {
    || tail == [Stopped(false, on)]
    || tail == [Stopped(true, on), Started(false, on)]
    || tail == [Stopped(true, on), Started(true, on), Seen(false, on)]
    || (|tail| == 13 && tail[0] == Stopped(true, on) && tail[1] == Started(true, on) && tail[2] == Seen(true, on)
        && IsPoll(tail[3..], 10, false, on))
  }

  /** Stops and starts the daemon, and waits until the panel is found to have
      revoked its old credentials. */
  method Restart(disk: Disk, daemon: Service) returns (ok: bool, ghost tail: seq<Event>)
    modifies daemon
    ensures daemon.log == old(daemon.log) + tail
    ensures if ok then IsSwitchTail(tail, disk.trees) else Stumbled(tail, disk.trees)
  {
    ok := daemon.Stop(disk);
    tail := [Stopped(ok, disk.trees)];
    if !ok {
      return;
    }
    ok := daemon.Start(disk);
    tail := tail + [Started(ok, disk.trees)];
    if !ok {
      return;
    }
    ok := daemon.Look(disk);
    tail := tail + [Seen(ok, disk.trees)];
    if !ok {
      return;
    }
    ghost var checks;
    ok, checks := daemon.CheckUpTo(disk, VerificationPollMaxAttempts);
    tail := tail + checks;
    assert tail[3..] == checks;
  }

  /** Saves the edited configuration and restarts the daemon on it; without the
      configuration the daemon is left alone. */
  method SaveAndRestart(disk: Disk, daemon: Service, cfg: ConfigFile, backupPath: string, ghost original: Tree)
    returns (ok: bool, ghost tail: seq<Event>)
    requires disk.Valid() && cfg.path != backupPath && Holds(disk.trees, backupPath, original)
    modifies disk, daemon, cfg`data
    ensures old(disk.history) <= disk.history && BackupHolds(disk, |old(disk.history)|, backupPath, original)
    ensures daemon.log == old(daemon.log) + tail
    ensures disk.faults == old(disk.faults) + if tail == [] then 1 else 0
    ensures tail != [] ==> Holds(disk.trees, cfg.path, File(Printed(cfg.yaml, cfg.root)))
    ensures if ok then IsSwitchTail(tail, disk.trees) else tail == [] || Stumbled(tail, disk.trees)
  {
    ghost var start := disk.trees;
    tail := [];
    ok := cfg.Save(disk);
    assert forall i | |old(disk.history)| <= i < |disk.history| :: SameAt(disk.history[i], start, backupPath);
    assert SameAt(disk.trees, start, backupPath);
    if ok {
      ok, tail := Restart(disk, daemon);
    }
  }

  function DropKeys(fields: seq<Field>, keys: seq<string>): seq<Field> {
    if keys == [] then fields else DropField(DropKeys(fields, keys[..|keys| - 1]), keys[|keys| - 1])
  }

  lemma DropLegacyKeys(fields: seq<Field>)
    ensures DropKeys(fields, LegacyKeys) == WithoutLegacy(fields)
  {
    var two, one: seq<string> := ["api_host", "listen_ip"], ["api_host"];
    assert LegacyKeys[..2] == two && two[..1] == one && one[..0] == [];
    assert DropKeys(fields, one) == DropField(fields, "api_host");
    assert DropKeys(fields, two) == DropField(DropKeys(fields, one), "listen_ip");
  }

  /** The document the configuration file holds. */
  function Parsed(s: State, deps: Deps): Option<Node> {
    if deps.cfgPath in s && s[deps.cfgPath].Keys == {""} then deps.yaml.parse(s[deps.cfgPath][""]) else None
  }

  method LoadConfig(disk: Disk, deps: Deps) returns (cfg: Option<ConfigFile>)
    modifies disk`faults
    ensures disk.faults >= old(disk.faults)
    ensures cfg.None? ==> disk.faults > old(disk.faults) || Parsed(disk.trees, deps) == None
    ensures cfg.Some? ==>
      && fresh(cfg.value) && cfg.value.path == deps.cfgPath && cfg.value.yaml == deps.yaml
      && Parsed(disk.trees, deps) == Some(cfg.value.root) && cfg.value.data == disk.trees[deps.cfgPath][""]
  {
    var readable := disk.Exists(deps.cfgPath);
    if !readable || disk.trees[deps.cfgPath].Keys != {""} {
      return None;
    }
    var data := disk.trees[deps.cfgPath][""];
    var root := deps.yaml.parse(data);
    if root.None? {
      return None;
    }
    var file := new ConfigFile(root.value, data, deps.cfgPath, deps.yaml);
    return Some(file);
  }

  /** From the flag or from api_host. */
  method ChooseAddress(root: Node, deps: Deps) returns (address: Option<string>)
    ensures Addressed(root, deps, address)
  {
    if deps.explicitAddress != "" {
      return Some(deps.explicitAddress);
    }
    var apiHost := Read(root, "api_host");
    if !apiHost.Found? || apiHost.text == "" {
      return None;
    }
    return deps.deriveAddress(apiHost.text);
  }

  /** The daemon's certificates, if it has been registered. */
  method CheckRegistration(root: Node, yaml: Yaml) returns (ok: bool)
    ensures ok <==> Registered(root, yaml)
  {
    if !HasText(root, "api_key") {
      return false;
    }
    var id := Read(root, "ds_id");
    if !id.Found? || yaml.toUint(id.text).None? || yaml.toUint(id.text).value == 0 {
      return false;
    }
    ok := HasText(root, "ca_certificate_file") && HasText(root, "certificate_chain_file")
      && HasText(root, "private_key_file");
  }

  /** The connection to the panel and the daemon's program; stops at the first
      probe that fails. */
  method TryOut(world: World<Probe>, root: Node, deps: Deps, address: string) returns (ok: bool)
    requires Registered(root, deps.yaml)
    modifies world
    ensures if ok then world.log == old(world.log) + Probes(root, deps, address)
            else |world.log| > |old(world.log)| && !world.log[|world.log| - 1].ok
  {
    ok := world.Try(Dial(address));
    if !ok {
      return;
    }
    var ca := deps.certPath(Read(root, "ca_certificate_file").text);
    var chain := deps.certPath(Read(root, "certificate_chain_file").text);
    var key := deps.certPath(Read(root, "private_key_file").text);
    ok := world.Try(Handshake(ca, chain, key, address));
    if !ok {
      return;
    }
    ok := world.Try(LookUpBinary);
  }

  datatype Verdict = Ready(address: string) | NothingToDo | NotReady

  /** Everything before the backup; only reads. */
  method Inspect(disk: Disk, world: World<Probe>, deps: Deps) returns (verdict: Verdict, cfg: Option<ConfigFile>)
    modifies disk`faults, world
    ensures disk.faults >= old(disk.faults)
    ensures verdict != NotReady ==>
      && cfg.Some? && fresh(cfg.value) && cfg.value.path == deps.cfgPath && cfg.value.yaml == deps.yaml
      && Parsed(disk.trees, deps) == Some(cfg.value.root)
      && (verdict.NothingToDo? <==> ReadGRPC(cfg.value.root, "enabled") == Found("true"))
    ensures verdict.Ready? ==>
      && Eligible(cfg.value.root, deps) && Addressed(cfg.value.root, deps, Some(verdict.address))
      && world.log == old(world.log) + Probes(cfg.value.root, deps, verdict.address)
    ensures verdict.NothingToDo? ==> world.log == old(world.log)
    ensures verdict.NotReady? ==>
      || disk.faults > old(disk.faults) || Parsed(disk.trees, deps) == None
      || !Eligible(Parsed(disk.trees, deps).value, deps)
      || (|world.log| > |old(world.log)| && !world.log[|world.log| - 1].ok)
  {
    cfg := LoadConfig(disk, deps);
    if cfg.None? {
      return NotReady, cfg;
    }
    var root := cfg.value.root;
    if ReadGRPC(root, "enabled") == Found("true") {
      return NothingToDo, cfg;
    }
    if Read(root, "api_host") == Unreadable {
      return NotReady, cfg;
    }
    var address := ChooseAddress(root, deps);
    if address.None? {
      return NotReady, cfg;
    }
    var ok := CheckRegistration(root, deps.yaml);
    if !ok {
      return NotReady, cfg;
    }
    ok := TryOut(world, root, deps, address.value);
    if !ok {
      return NotReady, cfg;
    }
    return Ready(address.value), cfg;
  }

  // ---------------------------------------------------- from the backup on

  /** What was found and chosen, and what the daemon was put through: by the
      switch, and by the rollback. */
  datatype Run = Run(root: Node, address: string, tail: seq<Event>, undo: seq<Event>)

  function Document(run: Run, deps: Deps): Option<Node> {
    Switched(run.root, run.address, deps.yaml.readQuoted)
  }

  /** The daemon was put through this with the new configuration on the disk. */
  ghost predicate SavedOn(s: State, run: Run, deps: Deps) {
    Document(run, deps).Some? && Holds(s, deps.cfgPath, File(Printed(deps.yaml, Document(run, deps).value)))
  }

  /** Why the switch failed, `faults` calls on the disk having failed: the edit, the
      save, or something the daemon was put through. */
  ghost predicate Failed(run: Run, faults: int, deps: Deps) {
    if run.tail == [] then Document(run, deps) == None || faults > 0
    else Stumbled(run.tail, run.tail[0].on) && SavedOn(run.tail[0].on, run, deps)
  }

  /** How an attempt that got past the backup can end. */
  ghost predicate Ends(outcome: Outcome, now: State, run: Run, faults: int, deps: Deps, original: Tree) {
    && faults >= 0 && Holds(now, deps.backupPath, original)
    && match outcome
       case SwitchedOn => run.undo == [] && SavedOn(now, run, deps) && IsSwitchTail(run.tail, now)
       case RolledBack => Failed(run, faults, deps) && IsUndo(outcome, run.undo, now, deps, original)
       case Critical =>
         && Failed(run, faults, deps) && IsUndo(outcome, run.undo, now, deps, original)
         && (|run.undo| == 1 ==> faults > 0)
       case _ => false
  }

  /** As the parser admits it. */
  predicate KeysOnce(root: Node) {
    root.Mapping? ==> Unique(root.fields)
  }

  /** The saved document has this text for a key under grpc. */
  ghost predicate SavedWith(run: Run, deps: Deps, key: string, text: string) {
    Document(run, deps).Some? && ReadGRPC(Document(run, deps).value, key) == Found(text)
  }

  lemma SavedAddress(run: Run, deps: Deps)
    requires Document(run, deps).Some? && KeysOnce(run.root) && run.address != ""
    ensures SavedWith(run, deps, "address", deps.yaml.readQuoted(run.address))
  {
    SwitchedGet(run.root, run.address, deps.yaml.readQuoted, "address");
  }

  /** From the backup on: edit, save, restart, verify, and roll back on any error. */
  method AttemptSwitch(disk: Disk, daemon: Service, deps: Deps, cfg: ConfigFile, address: string, ghost original: Tree)
    returns (outcome: Outcome, ghost run: Run)
    requires disk.Valid() && deps.cfgPath != deps.backupPath
    requires Holds(disk.trees, deps.backupPath, original) && original.Keys == {""}
    requires cfg.path == deps.cfgPath && cfg.yaml == deps.yaml
    modifies disk, daemon, cfg
    ensures old(disk.history) <= disk.history && BackupHolds(disk, |old(disk.history)|, deps.backupPath, original)
    ensures run.root == old(cfg.root) && run.address == address
    ensures daemon.log == old(daemon.log) + run.tail + run.undo
    ensures Ends(outcome, disk.trees, run, disk.faults - old(disk.faults), deps, original)
    ensures outcome == SwitchedOn && KeysOnce(run.root) && address != "" ==>
      SavedWith(run, deps, "address", deps.yaml.readQuoted(address))
  {
    run := Run(cfg.root, address, [], []);
    var ok := Edit(cfg, address);
    if ok {
      ghost var tail;
      ok, tail := SaveAndRestart(disk, daemon, cfg, deps.backupPath, original);
      run := run.(tail := tail);
    }
    if ok {
      if KeysOnce(run.root) && address != "" {
        SavedAddress(run, deps);
      }
      return SwitchedOn, run;
    }
    ghost var failed := disk.faults - old(disk.faults);
    assert Failed(run, failed, deps);
    ghost var undo;
    outcome, undo := RollBack(disk, daemon, deps, original);
    run := run.(undo := undo);
  }

  /** From the backup on; `saved` is the number of disk states there were when
      the backup was made, and without a backup nothing else is done. */
  method BackUpAndSwitch(disk: Disk, daemon: Service, deps: Deps, cfg: ConfigFile, address: string)
    returns (outcome: Outcome, ghost saved: nat, ghost run: Run)
    requires disk.Valid() && deps.cfgPath != deps.backupPath
    requires deps.cfgPath in disk.trees && disk.trees[deps.cfgPath].Keys == {""}
    requires cfg.path == deps.cfgPath && cfg.yaml == deps.yaml
    modifies disk, daemon, cfg
    ensures disk.Valid() && old(disk.history) <= disk.history
    ensures |old(disk.history)| <= saved <= |disk.history|
    ensures forall i | |old(disk.history)| <= i < saved :: SameAt(disk.history[i], old(disk.trees), deps.cfgPath)
    ensures forall i | saved <= i < |disk.history| ::
      Holds(disk.history[i], deps.backupPath, old(disk.trees)[deps.cfgPath])
    ensures run.root == old(cfg.root) && run.address == address
    ensures outcome == Refused ==>
      && saved == |disk.history| && daemon.log == old(daemon.log)
      && SameAt(disk.trees, old(disk.trees), deps.cfgPath)
      && (deps.backupPath in old(disk.trees) || disk.faults > old(disk.faults))
    ensures outcome != Refused ==>
      && daemon.log == old(daemon.log) + run.tail + run.undo
      && Ends(outcome, disk.trees, run, disk.faults - old(disk.faults), deps, old(disk.trees)[deps.cfgPath])
    ensures outcome == SwitchedOn && KeysOnce(run.root) && address != "" ==>
      SavedWith(run, deps, "address", deps.yaml.readQuoted(address))
    ensures disk.faults >= old(disk.faults)
  {
    ghost var original := disk.trees[deps.cfgPath];
    run := Run(cfg.root, address, [], []);
    var ok := Backup(disk, deps.cfgPath, deps.backupPath);
    saved := |disk.history|;
    if !ok {
      return Refused, saved, run;
    }
    outcome, run := AttemptSwitch(disk, daemon, deps, cfg, address, original);
  }

  /** Whatever keeps it from the switch is a call that failed, a configuration that
      does not allow it, or a backup in the way. */
  method SwitchToGRPC(disk: Disk, daemon: Service, world: World<Probe>, deps: Deps)
    returns (outcome: Outcome, ghost saved: nat, ghost run: Run)
    requires disk.Valid() && deps.cfgPath != deps.backupPath
    modifies disk, daemon, world
    ensures disk.Valid() && old(disk.history) <= disk.history && disk.faults >= old(disk.faults)
    // up to the backup the configuration is not touched, from then on the backup holds it
    ensures |old(disk.history)| <= saved <= |disk.history|
    ensures forall i | |old(disk.history)| <= i < saved :: SameAt(disk.history[i], old(disk.trees), deps.cfgPath)
    ensures forall i | saved <= i < |disk.history| ::
      deps.cfgPath in old(disk.trees) && Holds(disk.history[i], deps.backupPath, old(disk.trees)[deps.cfgPath])
    // without a backup
    ensures outcome in {AlreadyOn, Refused} ==>
      && saved == |disk.history| && daemon.log == old(daemon.log)
      && SameAt(disk.trees, old(disk.trees), deps.cfgPath)
    ensures outcome == Refused ==>
      || disk.faults > old(disk.faults) || Parsed(old(disk.trees), deps) == None
      || !Eligible(Parsed(old(disk.trees), deps).value, deps)
      || (|world.log| > |old(world.log)| && !world.log[|world.log| - 1].ok)
      || deps.backupPath in old(disk.trees)
    ensures outcome != Refused ==>
      && Parsed(old(disk.trees), deps) == Some(run.root)
      && (outcome == AlreadyOn <==> ReadGRPC(run.root, "enabled") == Found("true"))
    // with a backup
    ensures outcome !in {AlreadyOn, Refused} ==>
      && Eligible(run.root, deps) && world.log == old(world.log) + Probes(run.root, deps, run.address)
      && daemon.log == old(daemon.log) + run.tail + run.undo
      && Ends(outcome, disk.trees, run, disk.faults - old(disk.faults), deps, old(disk.trees)[deps.cfgPath])
    // the address: the one that was given, or else derived from the api_host that was found
    ensures outcome !in {AlreadyOn, Refused} && deps.explicitAddress != "" ==> run.address == deps.explicitAddress
    ensures outcome !in {AlreadyOn, Refused} && deps.explicitAddress == "" ==>
      && Read(run.root, "api_host").Found? && Read(run.root, "api_host").text != ""
      && deps.deriveAddress(Read(run.root, "api_host").text) == Some(run.address)
    ensures outcome == SwitchedOn && KeysOnce(run.root) && run.address != "" ==>
      SavedWith(run, deps, "address", deps.yaml.readQuoted(run.address))
  {
    saved := |disk.history|;
    run := Run(Scalar(""), "", [], []);
    var verdict, loaded := Inspect(disk, world, deps);
    if verdict != NotReady {
      run := run.(root := loaded.value.root);
    }
    if !verdict.Ready? {
      return if verdict.NothingToDo? then AlreadyOn else Refused, saved, run;
    }
    outcome, saved, run := BackUpAndSwitch(disk, daemon, deps, loaded.value, verdict.address);
  }

  /** When the printer and the parser agree, a second run finds the switch done. */
  lemma SwitchedStaysOn(root: Node, address: string, deps: Deps)
    requires root.Mapping? && Unique(root.fields) && Switched(root, address, deps.yaml.readQuoted).Some?
    requires var edited := Switched(root, address, deps.yaml.readQuoted).value;
      deps.yaml.parse(Printed(deps.yaml, edited)) == Some(edited)
    ensures var edited := deps.yaml.parse(Printed(deps.yaml, Switched(root, address, deps.yaml.readQuoted).value));
      edited.Some? && ReadGRPC(edited.value, "enabled") == Found("true")
  {
    SwitchedGet(root, address, deps.yaml.readQuoted, "enabled");
  }
}
