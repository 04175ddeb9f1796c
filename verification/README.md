# A Dafny model of gameapctl

gameapctl installs, updates and configures the GameAP panel and its daemon. This
project models the parts of it that are algorithms or protocols rather than
plumbing, in the form they have in the Go sources, and proves what the rest of
the installer relies on:

* **config.env and other line files.** Three editors and two parsers work on the
  same file. Rewriting it is a map update that leaves every other line alone; the
  panel's two secrets survive a sequence of installer commands exactly when every
  direct write of the file completes and the file can be read; the result of the
  in-place line editor does not depend on Go's map iteration order as long as no
  two needles hit the same line.
  (`text`, `order`, `env_file`, `env_map`, `env_vars`, `panel_config`, `acme`,
  `secrets`, `line_replace`)
* **Backup, change, verify, roll back.** The switch of a daemon to gRPC, the
  migration from panel v3 to v4, and the in-place update of panel v4 are run on a
  disk whose operations fail at any point and leave half-written trees behind. A
  ghost history of the disk states the promises about every moment of a run.
  (`disk`, `services`, `daemon_config`, `switch_grpc`, `migrate_v3_v4`, `update_v4`)
* **Packages.** The layered package configuration and its double-checked cache
  under any number of concurrent callers, and the recursive installation of
  Windows packages. (`package_config`, `package_cache`, `install_deps`)
* **Releases.** Probing and ordering of release sources, fail-over and retry, the
  version grammar, and the lookup of releases and assets. (`release_source`,
  `find_release`, `versions`, `release_lookup`)
* **Candidate hosts.** Which host a daemon dials when the panel's certificate
  does not cover the one it was given. (`candidate_hosts`)

Code that works by changing things is imperative here too: classes for the
configuration files, the disk, a service, the selector, the package manager and
the cache; arrays where the source overwrites a slice in place; loops where it
loops. Each such method is tied to a specification function or predicate, and
the properties are proved about that.

`dafny verify dfyconfig.toml` checks everything.

## How the outside world is modelled

* A call into the operating system, a service or the network either works or
  fails, chosen nondeterministically. The disk counts the calls that failed, a
  service keeps its events and the rest of the world its calls, so that the
  contracts can say what a run did and that it ended well unless something failed.
  A write that fails, or is caught half-way,
  leaves its own target in an arbitrary state; a removal leaves any part. For
  `config.env` this is finer: a direct write truncates first, so it leaves the old
  text or any part of the new one, a write at the end leaves any part of what it
  adds, and `writeEnv`, which renames a temporary file, changes all or nothing.
  A `State` of the disk maps paths to trees, and no path in use lies inside
  another one; a service does not write to the paths a protocol keeps.
* Regular expressions, YAML parsing and printing, `net.ParseIP`,
  `strings.EqualFold`, x509 host matching and `strings.ToLower` are parameters:
  the theorems hold whatever these functions are. Where an agreement between a
  printer and its parser is needed, it is a precondition.
* A map range visits the keys in an arbitrary order, and goroutines that write
  different slots finish in an arbitrary order. The callers of the package cache
  are a transition system with a read-write lock.
* Strings are sequences of code points and integers are unbounded, except that
  `strconv.Atoi` fails above the largest 64-bit int.

## Where the code does less than its documentation says

* A second `writeEnv` changes a non-blank line after all when the first one copied
  a text line that ends in a carriage return: the scanner drops one more of them
  every time. `EnvMap.SecondWriteStable` states exactly when it changes nothing.
* A variable whose name starts with a space is appended but never found again:
  `EnvVars.AppendThenRemove` holds exactly for the other names.
* Two callers of `LoadPackages` whose requests share a cache key get the same
  packages; an underscore can make such a clash. `PackageCache.CacheIsTransparent`
  states exactly when every call returns a fresh load.
* A secret that consists of spaces is generated anew by the next `Configure`
  (`Secrets.FirstConfigure`).
* `Configure`, `appendConfigEnvVar` and `removeConfigEnvVar` write `config.env` in
  place. A full disk can leave the file empty, no secret can be read from it
  (`Secrets.TruncatedHoldsNothing`), and the next `Configure` makes new ones, as it
  does when it cannot read the file. `Secrets.StepKeepsSecrets` and
  `Secrets.SecretsSurvive` state exactly when the secrets are safe.
* When two needles hit the same line, the map order decides what is written
  (`LineReplace.OverlapDepends`).
* Only direct self-dependency of packages is refused. The recursion is bounded
  exactly when no longer cycle is reached (`InstallDeps.BoundedIffNoCycle`).
* After a failed health check `handleV3toV4` says "rolled back to v3" whatever its
  rollback returned. `MigrateV3V4.RestoreExact` states for exactly which answers of
  the operating system the tree is certain to be back. When the v3 path is cleared
  and the rename fails, nothing is left at it (`MigrateV3V4.ClearedAndNotMoved`).
* With the Windows defaults v4 is installed over the v3 tree
  (pkg/gameap/constants_windows.go:5-12). The backup is kept there too until the
  health check passes, and a rollback whose move works brings the whole tree back. But files that
  could not be removed stay among it, and after a successful migration, however
  the last move and removal went, the v3 tree is certain to be somewhere exactly
  when v4 left all of its files as they were (`MigrateV3V4.FinishedInPlace`).
* Versions may carry a prerelease without the hyphen that section 9 of Semantic
  Versioning 2.0.0 requires; the grammar here is that of the code.

## Model

| member | source | states |
|---|---|---|
| `Text.TrimUnique` | pkg/utils/fs.go:206 | a trimmed text is recovered from any surrounding spaces |
| `Text.SplitJoin` | internal/actions/panel/install/panel_install_v4.go:1515-1523 | splitting joined lines that hold no newline gives the lines back |
| `Text.JoinSplit` | internal/actions/panel/install/panel_install_v4.go:1515-1523 | joining the lines of a text gives the text back |
| `Order.SortStrings` | internal/actions/panel/letsencrypt/letsencrypt.go:139 | the sorted list holds the same strings in strictly increasing order |
| `Order.SortedUnique` | internal/actions/panel/letsencrypt/letsencrypt.go:130-139 | sorting makes the result independent of the order the keys were collected in |
| `Order.StableOrder` | internal/actions/daemon/install/resolve_address.go:238-246 | a permutation by key, equal keys in their old order |
| `Order.StableOrderUnique` | internal/actions/daemon/install/resolve_address.go:238-246 | there is only one stable order |
| `Text.ScanText` | internal/actions/panel/letsencrypt/letsencrypt.go:71-74 | every line of a text is scanned, the last one with or without its newline, and loses one carriage return at its end |
| `EnvFile.EnvValuesMean` | internal/actions/panel/letsencrypt/letsencrypt.go:57-96 | a key is in the map iff some line assigns it, and the last such line decides its value |
| `EnvFile.ReadEnv` | internal/actions/panel/letsencrypt/letsencrypt.go:57-96 | all lines, and for each key the trimmed value of the last line that assigns it |
| `EnvFile.RewriteLines` | internal/actions/panel/letsencrypt/letsencrypt.go:107-128 | every line rewritten in its place, and exactly the updated keys that some line names |
| `EnvFile.CollectMissing` | internal/actions/panel/letsencrypt/letsencrypt.go:130-139 | exactly the keys to set that no line names, sorted, whatever the map order |
| `EnvFile.WriteEnv` | internal/actions/panel/letsencrypt/letsencrypt.go:104-194 | the rewritten lines followed by the missing keys, joined without a final newline |
| `EnvFile.MissingUnique` | internal/actions/panel/letsencrypt/letsencrypt.go:130-139 | there is one list of missing keys, so the result does not depend on the map order |
| `EnvMap.AssignmentEntry` | internal/actions/panel/letsencrypt/letsencrypt.go:57-96 | a written line is read back as the key and value it was written for |
| `EnvMap.WrittenLookup` | internal/actions/panel/letsencrypt/letsencrypt.go:57-194 | after a write a set key reads its new value, a marked key is gone, any other key reads as before |
| `EnvMap.WriteRefinesUpdate` | internal/actions/panel/letsencrypt/letsencrypt.go:57-194 | read, write, read again is the plain map update, duplicates and comments included |
| `EnvMap.OtherLinesVerbatim` | internal/actions/panel/letsencrypt/letsencrypt.go:107-143 | lines that name no updated key keep text and place, new keys follow in sorted order |
| `EnvMap.SecondWriteStable` | internal/actions/panel/letsencrypt/letsencrypt.go:57-194 | a second application changes no non-blank line iff the first copied no text line ending in a carriage return |
| `EnvMap.CarriageReturnKept` | internal/actions/panel/letsencrypt/letsencrypt.go:57-96 | a file whose one line a second application changes although it updates nothing |
| `EnvVars.FilterInPlace` | internal/actions/panel/install/panel_install_v4.go:1515-1521 | the filter over the shared slice keeps exactly the lines that are not stale, in order |
| `EnvVars.ConfigFile.WriteDirect` | internal/actions/panel/install/panel_install_v4.go:1523-1525 | a write in place leaves the new text, or the old text or any part of the new one when it fails |
| `EnvVars.ConfigFile.AppendVar` | internal/actions/panel/install/panel_install_v4.go:1511-1543 | the content after every combination of failures: truncated by a failed rewrite, extended by part of the line by a failed append |
| `EnvVars.ConfigFile.RemoveVar` | internal/actions/panel/install/panel_install_v4.go:1547-1567 | the file loses the variable's lines, is truncated by a failed write, or is left alone when it cannot be read |
| `EnvVars.StaleSpelled` | internal/actions/panel/install/panel_install_v4.go:1515-1521 | a line is dropped iff it reads the name and an equals sign behind any spaces |
| `EnvVars.DropLine` | internal/actions/panel/install/panel_install_v4.go:1515-1521 | a stale line goes, any other stays |
| `EnvVars.DropTwice` | internal/actions/panel/install/panel_install_v4.go:1547-1567 | removing a variable twice is removing it once |
| `EnvVars.AppendedIsStale` | internal/actions/panel/install/panel_install_v4.go:1511-1543 | the appended line is recognised later iff its name does not start with a space |
| `EnvVars.AppendThenRemove` | internal/actions/panel/install/panel_install_v4.go:1511-1567 | append then remove gives the old content less its stale lines plus one newline iff the name does not start with a space |
| `PanelConfig.ParseConfigEnvValues` | pkg/panel/install.go:475-489 | each key with the value of its last line |
| `PanelConfig.RenderedEntries` | pkg/panel/templates.go:3-32 | a parser sees the template's variables, in order, and nothing else |
| `PanelConfig.ParseRendered` | pkg/panel/install.go:262-291 | parsing the rendered file gives each variable its value less trailing spaces, and no other key |
| `PanelConfig.SecretsRendered` | pkg/panel/install.go:262-291 | both secrets are read back whatever the other settings are |
| `PanelConfig.SettingsRendered` | pkg/panel/templates.go:3-32 | each setting is read back from the variable that belongs to it; those of gRPC are there iff it is enabled |
| `PanelConfig.DefaultsRendered` | pkg/panel/install.go:232-260 | and a setting that was left empty reads as its default |
| `Acme.BuildUpdates` | internal/actions/panel/letsencrypt/setup.go:182-212 | the fixed settings overridden by the last argument for each key; fails iff an argument has no equals sign |
| `Acme.KVSpelled` | internal/actions/panel/letsencrypt/setup.go:202-209 | an argument is cut at its first equals sign, spaces around key and value do not count; without one it is an error |
| `Acme.DirectorySpelled` | internal/actions/panel/letsencrypt/setup.go:182-199 | the directory of Let's Encrypt, for staging and for production |
| `Acme.SetupEffect` | internal/actions/panel/letsencrypt/setup.go:182-212 | after setup the file reads as the parameters say, the provider only for the challenge that needs it |
| `Acme.ArgumentReads` | internal/actions/panel/letsencrypt/setup.go:182-212 | a key that arguments set reads as the last of them says |
| `Acme.SetupOneLine` | internal/actions/panel/letsencrypt/setup.go:182-212 | newline-free parameters give updates that cannot break a line |
| `Acme.SetupUpdatesExist` | internal/actions/panel/letsencrypt/setup.go:182-212 | valid arguments always come to an update map |
| `Acme.BuildDisableUpdates` | internal/actions/panel/letsencrypt/disable.go:28-38 | ACME_ENABLED set to false and every other owned key marked for removal |
| `Acme.DisableEffect` | internal/actions/panel/letsencrypt/disable.go:20-42 | afterwards ACME_ENABLED reads false, the other owned keys are gone, all else reads as before |
| `Acme.DisableLeaves` | internal/actions/panel/letsencrypt/disable.go:20-42 | ACME_ENABLED reads false, the nine other keys are gone by name, every other key reads as before |
| `Secrets.ReadSecrets` | pkg/panel/install.go:453-473 | empty secrets are taken from the existing file, given ones are kept |
| `Secrets.Configure` | pkg/panel/install.go:107-165 | the file for every failure: untouched before the write, truncated by a failed one, rendered with the completed secrets even if something after it fails |
| `Secrets.Setup` | internal/actions/panel/letsencrypt/setup.go:33-104 | writes the setup's updates, or leaves the file as it was |
| `Secrets.Disable` | internal/actions/panel/letsencrypt/disable.go:12-60 | writes the disabling updates, or leaves the file as it was |
| `Secrets.WriteKeeps` | internal/actions/panel/letsencrypt/letsencrypt.go:104-194 | the panel's own parser reads the same value for a key no update holds |
| `Secrets.DropVarKeeps` | internal/actions/panel/install/panel_install_v4.go:1547-1567 | removing another variable changes no value the panel reads |
| `Secrets.AppendedKeeps` | internal/actions/panel/install/panel_install_v4.go:1511-1543 | appending another variable changes no value the panel reads |
| `Secrets.ExtendedKeeps` | internal/actions/panel/install/panel_install_v4.go:1528-1541 | and neither does any part of the line that a failed append leaves |
| `Secrets.ConfigureKeeps` | pkg/panel/install.go:107-127 | a Configure with empty secrets renders the ones already in the file |
| `Secrets.StepKeepsSecrets` | pkg/panel/install.go:107-165 | no outcome of a command loses the secrets iff each direct write it tries completes and the file could be read before it was rendered anew, or the same keys were generated |
| `Secrets.TruncatedHoldsNothing` | pkg/panel/install.go:475-489 | an empty file holds neither secret |
| `Secrets.LostByStep` | pkg/panel/install.go:294-314 | every command that does not satisfy it has an outcome that loses them |
| `Secrets.SecretsSurvive` | pkg/panel/install.go:453-489 | no run of commands ever loses the secrets iff every command in it satisfies that condition |
| `Secrets.ExecuteAll` | pkg/panel/install.go:453-489 | the commands executed one after the other on the file are such a run |
| `Secrets.FirstConfigure` | pkg/panel/install.go:107-127 | a first Configure puts both secrets there iff neither is nothing but spaces |
| `Secrets.UnreadableReplaced` | pkg/panel/install.go:453-473 | a Configure that cannot read the file replaces the secrets |
| `LineReplace.ReadText` | pkg/utils/fs.go:191-201 | every line of the text is read, without its newline and the carriage return in front of it; what follows the last newline is read as it is |
| `LineReplace.ReadWritten` | pkg/utils/fs.go:191-201 | lines without a final carriage return are read as they were written |
| `LineReplace.SpliceKeepsSpace` | pkg/utils/fs.go:222-232 | the replacement takes the place of the trimmed text and the surrounding spaces stay; a blank line is replaced whole |
| `LineReplace.FindNeedle` | pkg/utils/fs.go:204-238 | a needle of the map that hits the line, none only if none does, an error only for a needle that is no pattern |
| `LineReplace.FindLineAndReplaceOrAdd` | pkg/utils/fs.go:181-264 | what is written, as a run in which each line consumes at most one needle still in the map |
| `LineReplace.Conservation` | pkg/utils/fs.go:191-261 | each needle is consumed at most once; lines written are lines read plus needles not consumed |
| `LineReplace.TextConservation` | pkg/utils/fs.go:191-261 | over the text of the file: as many lines are written as it has, a last one without a newline included, plus the needles not consumed |
| `LineReplace.NoHitNoChange` | pkg/utils/fs.go:191-261 | a file in which no needle hits is written as it was, but that its last line is given a newline |
| `LineReplace.ConsumedAtFirstHit` | pkg/utils/fs.go:204-238 | with disjoint needles a line consumes a needle iff it is the needle's first hit |
| `LineReplace.Confluence` | pkg/utils/fs.go:181-264 | every iteration order writes the same body, and tails that are permutations |
| `LineReplace.OverlapDepends` | pkg/utils/fs.go:204-238 | two needles that hit the same line, and two orders that write different lines |
| `FileSystem.Disk.Copy` | pkg/utils/fs.go:73-75 | only the target is ever touched; on success it holds the source |
| `FileSystem.MoveCrossDevice` | pkg/utils/fs.go:59-71 | at every moment the whole tree is at the source or the target |
| `FileSystem.Move` | pkg/utils/fs.go:25-57 | the same, and exactly where the trees are after each way the move can go; it is done unless a call fails or there is nothing to move |
| `Services.Service.CheckUpTo` | internal/actions/panel/update/panel_update_v4.go:300-317 | at most the allowed checks, all failed but the deciding last one |
| `DaemonConfig.ConfigFile.SetUnderGRPC` | internal/pkg/daemon/config.go:114-140 | the key is replaced in its place or merged in at the end; no mapping is an error |
| `DaemonConfig.ConfigFile.EnsureGRPCEnabled` | internal/pkg/daemon/config.go:86-158 | the enabled document, whether or not there was a grpc block |
| `DaemonConfig.ConfigFile.DeleteKey` | internal/pkg/daemon/config.go:162-195 | the key's field is removed in place; a missing key is no error |
| `DaemonConfig.ConfigFile.Save` | internal/pkg/daemon/config.go:197-208 | the printed document with a final newline is on the disk, and nothing else was touched |
| `DaemonConfig.ReadAt` | internal/pkg/daemon/config.go:43-80 | what is read at a key: the text of a scalar, an error for anything else there, missing without the key |
| `DaemonConfig.SwitchedGet` | internal/pkg/daemon/config.go:86-195 | the edit sets the two grpc keys, the address to what YAML reads from its quoted form, removes the legacy ones and keeps every other value |
| `DaemonConfig.SwitchedKeys` | internal/pkg/daemon/config.go:86-195 | the edit keeps the order of the other keys |
| `SwitchGRPC.Backup` | internal/pkg/daemon/config.go:210-232 | the configuration stays as it is; on success the backup holds it; it fails only when a call does or the file is there already |
| `SwitchGRPC.RollBack` | internal/actions/daemon/update/switch_to_grpc.go:179-190 | stopped, and with the original bytes back started; critical iff the copy or the start failed; the backup is never lost |
| `SwitchGRPC.Edit` | internal/actions/daemon/update/switch_to_grpc.go:192-199 | it succeeds iff the document can be edited, and then it is the switched document |
| `SwitchGRPC.Restart` | internal/actions/daemon/update/switch_to_grpc.go:204-240 | stopped and started once, seen running, then a check passed within ten attempts; or all of that up to the first failure |
| `SwitchGRPC.SaveAndRestart` | internal/actions/daemon/update/switch_to_grpc.go:200-240 | the daemon is restarted only on the edited document; without it no event, and a call that failed |
| `SwitchGRPC.ChooseAddress` | internal/actions/daemon/update/switch_to_grpc.go:115-124 | the address that was given, or else the one derived from api_host; none without either |
| `SwitchGRPC.CheckRegistration` | internal/actions/daemon/update/switch_to_grpc.go:126-139 | registered iff key, identity and the three certificate paths are there |
| `SwitchGRPC.TryOut` | internal/actions/daemon/update/switch_to_grpc.go:141-167 | the port, the handshake with the daemon's certificates and the program are tried, in this order, up to the first failure |
| `SwitchGRPC.Inspect` | internal/actions/daemon/update/switch_to_grpc.go:96-167 | ready iff the configuration allows it and every probe of the chosen address worked, unless a read failed |
| `SwitchGRPC.SwitchToGRPC` | internal/actions/daemon/update/switch_to_grpc.go:96-255 | every run ends untouched, switched and verified, rolled back exactly, or critical; from the backup on the backup always holds the original; the saved document has the address that was given, or the one derived from api_host; what failed accounts for every other end |
| `SwitchGRPC.SwitchedStaysOn` | internal/actions/daemon/update/switch_to_grpc.go:96-255 | a second run finds the switch already done |
| `MigrateV3V4.BackupWebServerConfig` | internal/actions/panel/update/panel_update_v3_to_v4.go:401-435 | the web server's file is copied and stays as it is; it fails only when a call does or there is none to copy |
| `MigrateV3V4.UpdateWebServerConfig` | internal/actions/panel/update/panel_update_v3_to_v4.go:437-517 | success means the site file holds the proxy configuration; it fails iff a call does or the web server is not supported |
| `MigrateV3V4.RestoreWebServerFromBackup` | internal/actions/panel/update/panel_update_v3_to_v4.go:579-619 | the copy is put back, touching nothing else, unless a call fails; then the web server is restarted |
| `MigrateV3V4.RestoreTree` | internal/actions/panel/update/panel_update_v3_to_v4.go:551-577 | a copy of the tree exists throughout, and the end is one the answers of the operating system allow; without a failure the path was cleared and the tree moved |
| `MigrateV3V4.RestoreExact` | internal/actions/panel/update/panel_update_v3_to_v4.go:551-577 | the v3 path is certain to hold exactly the tree iff the move worked and no file was left over, or nothing was moved and the tree was never touched |
| `MigrateV3V4.SmoothRestores` | internal/actions/panel/update/panel_update_v3_to_v4.go:551-577 | when no call fails, the tree is back and nothing else is there |
| `MigrateV3V4.NotRestored` | internal/actions/panel/update/panel_update_v3_to_v4.go:551-577 | in every other case a disk on which it does not |
| `MigrateV3V4.ClearedAndNotMoved` | internal/actions/panel/update/panel_update_v3_to_v4.go:560-568 | a path that was cleared and nothing moved to holds no tree |
| `MigrateV3V4.RestoredWhole` | internal/actions/panel/update/panel_update_v3_to_v4.go:551-577 | a move that worked brings the whole tree back, whatever lay at the path |
| `MigrateV3V4.RestoredApart` | internal/actions/panel/update/panel_update_v3_to_v4.go:551-577 | with v4 apart from the v3 tree, a rollback that returns nil has restored it exactly |
| `MigrateV3V4.RollbackV3toV4` | internal/actions/panel/update/panel_update_v3_to_v4.go:551-577 | after a move that worked the whole tree is back, exactly so under the condition of RestoreExact; when no call fails, tree and web server's file are both back |
| `MigrateV3V4.Install` | internal/actions/panel/update/panel_update_v3_to_v4.go:90-126 | which calls are made, in which order, up to the one that fails; the backup stays intact |
| `MigrateV3V4.PutBehind` | internal/actions/panel/update/panel_update_v3_to_v4.go:144-171 | the site file is written and the web server restarted, or neither |
| `MigrateV3V4.StartAndCheck` | internal/actions/panel/update/panel_update_v3_to_v4.go:128-188 | the backup, and a tree apart from v4, stay intact; success means started, the site file written and a check passed within five; every failure stops the panel or never started it |
| `MigrateV3V4.InstallAndCheck` | internal/actions/panel/update/panel_update_v3_to_v4.go:90-188 | the same from the backup on, the calls of the installation included |
| `MigrateV3V4.Finish` | internal/actions/panel/update/panel_update_v3_to_v4.go:195-214 | where moving the old tree away and deleting the backup ends, however they go; both are done unless a call fails; a tree that v4 left whole is never lost |
| `MigrateV3V4.MoveAway` | internal/actions/panel/update/panel_update_v3_to_v4.go:195-206 | with v4 apart, the tree is at one of the two places at every moment of the move |
| `MigrateV3V4.FinishedInPlace` | internal/actions/panel/update/panel_update_v3_to_v4.go:195-214 | with v4 installed over it, for every way the move and the removal of the backup can go, the tree is certain to be somewhere iff v4 left all of its files as they were |
| `MigrateV3V4.LostByFinish` | internal/actions/panel/update/panel_update_v3_to_v4.go:195-214 | when v4 changed one of them, an end of each of these ways without the tree |
| `MigrateV3V4.Conclude` | internal/actions/panel/update/panel_update_v3_to_v4.go:103-214 | a failed verdict is rolled back, a passed one finished |
| `MigrateV3V4.BackUp` | internal/actions/panel/update/panel_update_v3_to_v4.go:41-88 | the v3 tree and the site file are not touched; on success the copy of the tree is complete; only calls that failed keep it from that |
| `MigrateV3V4.Migrate` | internal/actions/panel/update/panel_update_v3_to_v4.go:90-220 | the verdict follows from the calls and the panel's events, and is acted upon |
| `MigrateV3V4.HandleV3toV4` | internal/actions/panel/update/panel_update_v3_to_v4.go:41-220 | in every run a complete copy of the v3 tree exists at every moment, up to the passing health check when v4 is installed over it; the calls and the panel's events tell how it ended; success means the site file holds the proxy configuration then and at the end; when no call on the disk failed, a rollback has restored tree and site file exactly |
| `UpdateV4.RestoreBackup` | internal/actions/panel/update/panel_update_v4.go:221-240 | the old binary is kept throughout; it is installed iff none of the calls fails |
| `UpdateV4.BackupAndReplace` | internal/actions/panel/update/panel_update_v4.go:196-218 | the old binary is kept throughout; success, iff no call fails, means the downloaded one is installed; a single failure leaves one of the two installed |
| `UpdateV4.RollBack` | internal/actions/panel/update/panel_update_v4.go:98-115 | stopped, restored and started again; a failed restore is a call that failed, a failed restart had the old binary in place, "rolled back" is both done |
| `UpdateV4.StartAndCheck` | internal/actions/panel/update/panel_update_v4.go:83-120 | the old binary is kept up to the state in which the last check passed, and that state holds it; the panel's events by how it ends |
| `UpdateV4.ReplaceAndStart` | internal/actions/panel/update/panel_update_v4.go:78-129 | the same from the replacement on, and which binary is installed by how it ends |
| `UpdateV4.Download` | internal/actions/panel/update/panel_update_v4.go:150-193 | found and fetched in this order, or a call that failed; the installed binary stays |
| `UpdateV4.HandleV4` | internal/actions/panel/update/panel_update_v4.go:33-129 | in every run the old bytes exist until the check passes, in the state it passed in too; the whole list of the panel's events and the installed binary for each of the eight ends; what failed accounts for each |
| `PackageConfig.KeyInjective` | pkg/package_manager/pkgconfig/config.go:55-64 | underscore-free requests have the same key iff they are the same |
| `PackageConfig.KeyCollision` | pkg/package_manager/pkgconfig/config.go:55-161 | two requests with an underscore that share a key but not their packages |
| `PackageConfig.VariablesReplaced` | pkg/package_manager/pkgconfig/config.go:163-179 | each placeholder becomes the part of the request it names and the text around stays, for any list of literals and placeholders without other braces |
| `PackageConfig.ResolveMeaning` | pkg/package_manager/pkgconfig/config.go:163-188 | every command of a package is filled in that way and normalised; all else of it stays |
| `PackageConfig.NormalizeCommandLoop` | pkg/package_manager/pkgconfig/config.go:190-211 | the loop with its flag computes the collapsed command |
| `PackageConfig.NormalizeIdempotent` | pkg/package_manager/pkgconfig/config.go:190-211 | a command comes out on one line, singly spaced and trimmed, and a second time unchanged |
| `PackageConfig.NormalizeKeepsWords` | pkg/package_manager/pkgconfig/config.go:190-211 | it keeps the words of a command, in their order |
| `PackageConfig.FreshLoadMeaning` | pkg/package_manager/pkgconfig/config.go:125-156 | each package name means its last definition from generic to specific, with its commands filled in for the request |
| `PackageConfig.LoadedUnique` | pkg/package_manager/pkgconfig/config.go:71-161 | that determines the packages |
| `PackageConfig.FilesToLoad` | pkg/package_manager/pkgconfig/config.go:90-121 | the files of exactly the layers whose parts are known, fewer parts first |
| `PackageConfig.DefinitionsOf` | pkg/package_manager/pkgconfig/config.go:125-156 | each file adds what is listed in it under the directory of the package manager |
| `PackageConfig.FileListUnique` | pkg/package_manager/pkgconfig/config.go:90-121 | that describes one list only |
| `PackageConfig.GenericFirst` | pkg/package_manager/pkgconfig/config.go:90-121 | a file that uses all the parts of another one and more comes after it |
| `PackageConfig.BuildFileList` | pkg/package_manager/pkgconfig/config.go:90-121 | the conditional appends build that list |
| `PackageConfig.LoadFiles` | pkg/package_manager/pkgconfig/config.go:90-158 | the loops over files and packages give the fresh load; fails iff a file that exists is malformed |
| `PackageCache.LoadedOnce` | pkg/package_manager/pkgconfig/config.go:71-161 | with any number of callers and any interleaving each key is loaded at most once |
| `PackageCache.CacheIsTransparent` | pkg/package_manager/pkgconfig/config.go:71-161 | on every run every call returns what a fresh load would, iff no two callers share a key but not its packages |
| `PackageCache.UnderscoreFreeNoClash` | pkg/package_manager/pkgconfig/config.go:55-64 | underscore-free requests never clash |
| `PackageCache.ClashShows` | pkg/package_manager/pkgconfig/config.go:71-161 | a run in which the second of two clashing callers returns the first one's packages |
| `PackageCache.NeverStuck` | pkg/package_manager/pkgconfig/config.go:71-161 | as long as a caller has not returned, some caller can take a step |
| `PackageCache.Cache.LoadPackages` | pkg/package_manager/pkgconfig/config.go:71-161 | one caller's code returns the fresh load although others run between its two checks; a key that is there is not loaded again |
| `InstallDeps.WindowsPackageManager.Install` | pkg/package_manager/windows.go:58-84 | terminates; known dependencies are installed before each attempt, only needed packages are touched, the first failure is the last event, nil means installed |
| `InstallDeps.WindowsPackageManager.InstallDependencies` | pkg/package_manager/windows.go:86-121 | the same for the dependencies; nil means each known one is installed |
| `InstallDeps.DeepDependenciesFirst` | pkg/package_manager/windows.go:58-121 | before each attempt every known dependency at any depth has been installed |
| `InstallDeps.CycleNeverAttempted` | pkg/package_manager/windows.go:58-121 | a package on a dependency cycle of any length is never attempted |
| `InstallDeps.InstalledWithAllItNeeds` | pkg/package_manager/windows.go:58-121 | an installed package has all it needs installed, none of it self-dependent |
| `InstallDeps.BoundedIffNoCycle` | pkg/package_manager/windows.go:86-121 | the recursion depth is bounded iff no cycle is reached |
| `InstallDeps.MutualDependencyNotRefused` | pkg/package_manager/windows.go:99-106 | two packages that pass the self-dependency check and recurse for ever |
| `ReleaseSource.Ranking` | pkg/releasesource/selector.go:207-243 | available sources by latency, ties in configured order, then the others in configured order |
| `ReleaseSource.RankingUnique` | pkg/releasesource/selector.go:207-243 | there is only one such order |
| `ReleaseSource.ProbeAll` | pkg/releasesource/selector.go:207-223 | the goroutines fill the same results in any order of finishing |
| `ReleaseSource.ProbeAndSort` | pkg/releasesource/selector.go:207-243 | the one ranking of the answers, whatever the interleaving |
| `ReleaseSource.Selector.OrderedSources` | pkg/releasesource/selector.go:193-199 | only the first call probes; every later call returns its result |
| `FindRelease.BuiltVia` | pkg/releasesource/selector.go:146-157 | the chosen source's URL first, then every other source's in order |
| `FindRelease.GitHubURLs` | pkg/releasesource/source.go:39-80 | where GitHub lists the releases of each component; an asset's own URL is taken as it is |
| `FindRelease.MirrorURLs` | pkg/releasesource/source.go:39-72 | where each built-in mirror lists them, the daemon under its other name |
| `FindRelease.MirrorAssets` | pkg/releasesource/source.go:74-80 | and where it keeps an asset |
| `FindRelease.OneURLPerSource` | pkg/releasesource/selector.go:146-157 | exactly one URL for each source |
| `FindRelease.RetryGitHub` | pkg/releasesource/selector.go:125-144 | one full retry, at the first GitHub source |
| `FindRelease.FindFromSources` | pkg/releasesource/selector.go:40-98 | the first source that succeeds wins; if all fail, the full retry iff GitHub was limited and no content error came, else the first content error, else the first error |
| `FindRelease.SourcesForFind` | pkg/releasesource/selector.go:170-188 | a forced name selects that source alone without probing, an unknown one is an error; otherwise the remembered order |
| `FindRelease.Find` | pkg/releasesource/selector.go:40-98 | the same from the entry point on, over the ranking of the first probe's answers |
| `FindRelease.LookupIsFinal` | pkg/releasesource/selector.go:81-94 | a lookup that found no tag or no asset rules the full retry out and decides the error |
| `FindRelease.LimitIsRetried` | pkg/releasesource/selector.go:81-94 | when GitHub was limited and the rest were limits or no answers, the full retry goes to GitHub, and its failure leaves the first error |
| `FindRelease.OrderedDistinct` | pkg/releasesource/selector.go:207-243 | ordering keeps the source names distinct |
| `FindRelease.DefaultNamesDistinct` | pkg/releasesource/source.go:39-45 | the built-in sources have distinct names |
| `Versions.NormalizedShape` | pkg/releasefinder/release_finder.go:476-530 | everything that is accepted: nothing, one or two numbers, or three numbers and a suffix |
| `Versions.MajorAccepted` | pkg/releasefinder/release_finder.go:476-530 | one number, with or without a v and spaces around, is the prefix of its major version, and takes no suffix |
| `Versions.MinorAccepted` | pkg/releasefinder/release_finder.go:476-530 | two numbers are the prefix of their minor version, and take no suffix |
| `Versions.FullAccepted` | pkg/releasefinder/release_finder.go:476-530 | three numbers pin their tag, suffix included |
| `Versions.MajorV3Meaning` | pkg/releasefinder/release_finder.go:406-423 | a tag or prefix is in the v3 line iff its first number is written 3 |
| `Versions.NormalizeFull` | pkg/releasefinder/release_finder.go:476-530 | every full tag is accepted and normalises to itself |
| `Versions.NormalizeIdempotent` | pkg/releasefinder/release_finder.go:476-530 | a full tag that was produced normalises to itself |
| `Versions.PrereleaseIffSuffix` | pkg/releasefinder/release_finder.go:390-403 | a prerelease is seen iff a suffix was parsed |
| `Versions.MajorPrefixSelects` | pkg/releasefinder/release_finder.go:476-530 | a major prefix is a prefix of exactly its own tags |
| `Versions.MinorPrefixSelects` | pkg/releasefinder/release_finder.go:476-530 | a minor prefix is a prefix of exactly its own tags: 4.1 never selects 4.10 |
| `Versions.AtLeastV4_2Meaning` | pkg/releasefinder/release_finder.go:425-466 | on full tags the test is (major, minor) >= (4, 2) on decimal values that fit an int, whatever the suffix |
| `Versions.AtLeastV4_2Monotone` | pkg/releasefinder/release_finder.go:425-466 | it never turns false for a newer version |
| `Versions.MajorV3IsNotV4_2` | pkg/releasefinder/release_finder.go:406-466 | it is false of everything in the v3 line |
| `ReleaseLookup.MatchAssetMeaning` | pkg/releasefinder/release_finder.go:362-374 | the first asset that fits, and none iff none fits |
| `ReleaseLookup.FitsOwnSystem` | pkg/releasefinder/release_finder.go:362-374 | an asset whose name spells tag, system and architecture with hyphens fits iff the two are its own: mips never takes mips64 |
| `ReleaseLookup.MatchesOwnBuild` | pkg/releasefinder/release_finder.go:362-374 | of assets named that way the first one built for the system is taken, and none iff none was built for it |
| `ReleaseLookup.LookupsFindBuilds` | pkg/releasefinder/release_finder.go:302-347 | and so both lookups find a release iff it has a build for the system |
| `ReleaseLookup.FindReleaseFromList` | pkg/releasefinder/release_finder.go:302-325 | the first eligible release with an asset; otherwise an error naming the first eligible tag |
| `ReleaseLookup.FindReleaseByTagFromList` | pkg/releasefinder/release_finder.go:329-347 | the first release with the tag decides |
| `ReleaseLookup.ListAgreesWithEndpoint` | pkg/releasefinder/release_finder.go:329-360 | with unique tags, list and endpoint lookup give the same result, found or not |
| `ReleaseLookup.PrefixSelectsLine` | pkg/releasefinder/release_finder.go:302-325 | an eligible release belongs to the minor version that was asked for |
| `CandidateHosts.Dedup` | internal/actions/daemon/install/resolve_address.go:265-277 | each value once, in the order of first appearance |
| `CandidateHosts.CandidateHostsFromCert` | internal/actions/daemon/install/resolve_address.go:157-210 | exactly the usable hosts of the certificate, each once, by tier, then weight, then certificate order |
| `CandidateHosts.WeightOrder` | internal/actions/daemon/install/daemon_install.go:1284-1301 | addresses outside all ranges come first, then 192.168, 10 and so on down to loopback, IPv6 last |
| `CandidateHosts.OriginalNotCandidate` | internal/actions/daemon/install/resolve_address.go:157-210 | the host that was given is not tried again, nor a name with a wildcard |
| `CandidateHosts.URLSpelled` | internal/actions/daemon/install/connect_url.go:56-62 | how the address is written back, an IPv6 host in brackets |
| `CandidateHosts.PreferenceOrderUnique` | internal/actions/daemon/install/resolve_address.go:157-246 | there is only one such list |
| `CandidateHosts.RewriteToCoveredCandidate` | internal/actions/daemon/install/resolve_address.go:71-111 | the best candidate that shows the identical covering certificate, and an error iff there is none |
| `CandidateHosts.ResolveConnectAddress` | internal/actions/daemon/install/resolve_address.go:45-69 | the given address whenever the certificate covers it or there is none, else the best proven candidate |

## Left out

- Acme.SetupOneLine: the prompts and the validation of setup parameters are not modelled; the parameters are taken as they are.
- Secrets.Configure: scope paths, users and directories before the write, and the ownership and installation after it, are each one step that may fail.
- Secrets.Setup: the restart of the panel after the file is written is not modelled.
- PanelConfig.DefaultsRendered: the cleaning of the joined path by `filepath.Join` is not modelled.
- EnvVars.ConfigFile.AppendVar: a rewrite that fails is followed by nothing; errors of closing the file are not modelled.
- LineReplace.FindLineAndReplaceOrAdd: the reader's buffer limit and write errors are not modelled, nor the file that is created and renamed around it.
- FileSystem.Move: the mode and owner of files are not modelled; setting a mode is a call that works or fails.
- SwitchGRPC.SwitchToGRPC: wall-clock waiting and context cancellation between attempts are not modelled; a cancelled attempt counts as a failed one.
- MigrateV3V4.HandleV3toV4: reading the v3 settings, building the configuration and installing v4 are calls that may fail; they write nowhere near the backup. The text of the site file is a parameter, and so is whether there are storage files. The saving of the new state is not modelled. A rename over a directory that is not empty is not excluded.
- UpdateV4.HandleV4: the recording of the new version in the state file is not modelled.
- PackageCache.Cache.LoadPackages: the callers share one map value in Go; what a caller could do by changing the returned map is not modelled.
- InstallDeps.WindowsPackageManager.Install: downloading, unpacking and configuring one package is a single event that works or fails.
- FindRelease.FindFromSources: time-outs are answers like any other; the waiting between retries is not modelled.
- CandidateHosts.ResolveConnectAddress: the parsing of the connect URL by `net/url` is not modelled.
- Versions.NormalizeTag: no width limit on the numbers of a tag, as in the code; only the comparison with 4.2 converts them.
- Text that is not valid UTF-8, and the token limit of `bufio.Scanner`.
- The daemon's own binary update, which records the new tag even after it went back to the old binary.
- The Windows package cache, whose callers write through shared slices.
- The variant of the panel update that builds from a branch, the search for a local panel when the address does not answer, database installers, service definitions, package manager commands, log collection and the web interface.
