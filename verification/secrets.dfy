/** The secrets in config.env survive whatever the installer does to the file
    later: re-installation, ACME setup and removal, transient variables. */
module Secrets {
  import opened Text
  import opened EnvFile
  import opened EnvMap
  import opened EnvVars
  import opened PanelConfig
  import opened Acme

  // ------------------------------------------------------------ Configure

  function ReadSecret(existing: Option<string>, key: string): string {
    if existing.None? then ""
    else match PanelValue(existing.value, key) case Some(value) => value case None => ""
  }

  /** preserveExistingSecrets; `existing` is the text of config.env, if it could be read. */
  function PreserveExistingSecrets(c: Config, existing: Option<string>): Config {
    c.(encryptionKey := if c.encryptionKey == "" then ReadSecret(existing, EncryptionKey) else c.encryptionKey,
       authSecret := if c.authSecret == "" then ReadSecret(existing, AuthSecret) else c.authSecret)
  }

  /** Everything outside Configure that can go wrong, and the random keys. */
  datatype ConfigureFaults = ConfigureFaults(
    readable: bool, freshKey: Option<string>, freshSecret: Option<string>,
    prepares: bool, writes: bool, finishes: bool)

  /** The configuration that Configure renders, unless a key cannot be generated. */
  function Completed(c: Config, existing: Option<string>, faults: ConfigureFaults): Option<Config> {
    var p := PreserveExistingSecrets(ApplyConfigDefaults(c), existing);
    if (p.encryptionKey == "" && faults.freshKey.None?) || (p.authSecret == "" && faults.freshSecret.None?) then None
    else Some(p.(encryptionKey := if p.encryptionKey == "" then faults.freshKey.value else p.encryptionKey,
                 authSecret := if p.authSecret == "" then faults.freshSecret.value else p.authSecret))
  }

  method ReadSecrets(c: Config, content: Option<string>) returns (r: Config)
    ensures r == PreserveExistingSecrets(c, content)
  {
    if (c.encryptionKey != "" && c.authSecret != "") || content.None? {
      return c;
    }
    r := c;
    var existing := ParseConfigEnvValues(content.value);
    if c.encryptionKey == "" {
      r := r.(encryptionKey := if EncryptionKey in existing then existing[EncryptionKey] else "");
    }
    if c.authSecret == "" {
      r := r.(authSecret := if AuthSecret in existing then existing[AuthSecret] else "");
    }
  }

  /** The file is overwritten once everything before that has worked; changing its
      owner and the rest of the installation can still fail afterwards. */
  method Configure(file: ConfigFile, c: Config, faults: ConfigureFaults) returns (ok: bool)
    modifies file
    ensures var existing := if faults.readable then old(file.content) else None;
      var completed := Completed(c, existing, faults);
      && ok == (completed.Some? && faults.prepares && faults.writes && faults.finishes)
      && if completed.Some? && faults.prepares
         then Overwritten(old(file.content), RenderConfigEnv(completed.value), faults.writes, file.content)
         else file.content == old(file.content)
  {
    var config := ApplyConfigDefaults(c);
    config := ReadSecrets(config, if faults.readable then file.content else None);
    if config.encryptionKey == "" {
      if faults.freshKey.None? {
        return false;
      }
      config := config.(encryptionKey := faults.freshKey.value);
    }
    if config.authSecret == "" {
      if faults.freshSecret.None? {
        return false;
      }
      config := config.(authSecret := faults.freshSecret.value);
    }
    if !faults.prepares {
      return false;
    }
    file.WriteDirect(RenderConfigEnv(config), faults.writes);
    return faults.writes && faults.finishes;
  }

  // ------------------------------------------------ letsencrypt commands

  /** readEnv and writeEnv around an update map. The new text goes to a
      temporary file first, so a failed write leaves config.env as it was. */
  method RewriteEnv(file: ConfigFile, updates: map<string, string>, writes: bool) returns (ok: bool)
    modifies file
    ensures ok == (old(file.content).Some? && writes)
    ensures !ok ==> file.content == old(file.content)
    ensures ok ==> file.content.Some? && file.content.value == Written(ScanLines(old(file.content).value), updates)
  {
    if file.content.None? {
      return false;
    }
    var lines, _ := ReadEnv(file.content.value);
    var a := new string[|lines|](i requires 0 <= i < |lines| => lines[i]);
    assert a[..] == lines;
    var written := WriteEnv(a, updates);
    if !writes {
      return false;
    }
    file.content := Some(written);
    return true;
  }

  ghost predicate WrittenBySetup(p: SetupParams, was: string, now: string) {
    exists updates :: IsSetupUpdates(updates, BaseUpdates(p), p.envKVs) && now == Written(ScanLines(was), updates)
  }

  method Setup(file: ConfigFile, p: SetupParams, writes: bool) returns (ok: bool)
    modifies file
    ensures ok == (old(file.content).Some? && ValidKVs(p.envKVs) && writes)
    ensures !ok ==> file.content == old(file.content)
    ensures ok ==> file.content.Some? && WrittenBySetup(p, old(file.content).value, file.content.value)
  {
    var updates := BuildUpdates(p);
    if updates.None? {
      return false;
    }
    ok := RewriteEnv(file, updates.value, writes);
  }

  method Disable(file: ConfigFile, writes: bool) returns (ok: bool)
    modifies file
    ensures ok == (old(file.content).Some? && writes)
    ensures !ok ==> file.content == old(file.content)
    ensures ok ==>
      file.content.Some? && file.content.value == Written(ScanLines(old(file.content).value), DisableUpdates())
  {
    var updates := BuildDisableUpdates();
    ok := RewriteEnv(file, updates, writes);
  }

  // ------------------------------------------------------------- runs

  /** One command on an existing config.env, and what the operating system
      answers to it. */
  datatype Step =
    | ConfigureStep(config: Config, faults: ConfigureFaults)
    | SetupStep(params: SetupParams, writes: bool)
    | DisableStep(writes: bool)
    | AppendStep(name: string, value: string, faults': AppendFaults)
    | RemoveStep(name: string, readable: bool, rewrites: bool)

  /** What the command can make of the text. */
  ghost predicate Stepped(step: Step, was: string, now: string) {
    match step
    case ConfigureStep(c, faults) =>
      var completed := Completed(c, if faults.readable then Some(was) else None, faults);
      if completed.Some? && faults.prepares
      then Overwritten(Some(was), RenderConfigEnv(completed.value), faults.writes, Some(now))
      else now == was
    case SetupStep(p, writes) => if ValidKVs(p.envKVs) && writes then WrittenBySetup(p, was, now) else now == was
    case DisableStep(writes) => now == if writes then Written(ScanLines(was), DisableUpdates()) else was
    case AppendStep(name, value, faults) => AppendOutcome(was, name, value, faults, now)
    case RemoveStep(name, readable, rewrites) => RemoveOutcome(was, name, readable, rewrites, now)
  }

  method Execute(file: ConfigFile, step: Step)
    requires file.content.Some?
    modifies file
    ensures file.content.Some? && Stepped(step, old(file.content).value, file.content.value)
  {
    match step
    case ConfigureStep(c, faults) => var _ := Configure(file, c, faults);
    case SetupStep(p, writes) => var _ := Setup(file, p, writes);
    case DisableStep(writes) => var _ := Disable(file, writes);
    case AppendStep(name, value, faults) => var _ := file.AppendVar(name, value, faults);
    case RemoveStep(name, readable, rewrites) => file.RemoveVar(name, readable, rewrites);
  }

  predicate IsSecret(key: string) {
    key == EncryptionKey || key == AuthSecret
  }

  /** Newline-free settings and generated keys, and no secret named by the caller. */
  predicate Harmless(step: Step) {
    match step
    case ConfigureStep(c, faults) =>
      && NewlineFree(c) && c.encryptionKey == "" && c.authSecret == ""
      && (faults.freshKey.Some? ==> LF !in faults.freshKey.value)
      && (faults.freshSecret.Some? ==> LF !in faults.freshSecret.value)
    case SetupStep(p, _) =>
      NewlineFreeParams(p)
      && Find(KVEntries(p.envKVs), EncryptionKey) == None && Find(KVEntries(p.envKVs), AuthSecret) == None
    case AppendStep(name, value, _) => HarmlessName(name) && LF !in value
    case RemoveStep(name, _, _) => HarmlessName(name)
    case DisableStep(_) => true
  }

  predicate HarmlessName(name: string) {
    LF !in name && '=' !in name && !IsSecret(TrimSpace(name))
  }

  ghost predicate IsRun(steps: seq<Step>, texts: seq<string>) {
    |texts| == |steps| + 1 && forall i | 0 <= i < |steps| :: Stepped(steps[i], texts[i], texts[i + 1])
  }

  // ----------------------------------------- a key no line of which changes

  lemma {:induction false} FindUntouched(a: seq<Option<Entry>>, b: seq<Option<Entry>>, key: string)
    requires |a| == |b|
    requires forall i | 0 <= i < |a| :: a[i] == b[i] || (!Assigns(a[i], key) && !Assigns(b[i], key))
    ensures Find(a, key) == Find(b, key)
  {
    if a != [] {
      FindUntouched(a[..|a| - 1], b[..|a| - 1], key);
    }
  }

  /** Trimming a line p=q only takes spaces off the front of p and the end of q. */
  lemma TrimAroundEquals(raw: string, p: string, q: string) returns (pre: string, p': string, q': string)
    requires raw == p + ['='] + q
    ensures AllSpace(pre) && p == pre + p'
    ensures TrimSpace(raw) == p' + ['='] + q'
  {
    var post;
    pre, post := TrimSplit(raw);
    var t := TrimSpace(raw);
    assert raw[|p|] == '=' && !IsSpace('=');
    NotAmongSpaces(raw, pre, t + post, |p|);
    NotAmongTrailing(raw, pre + t, post, |p|);
    var k := |p| - |pre|;
    p', q' := t[..k], t[k + 1..];
    assert t[k] == raw[|p|];
    assert forall i | 0 <= i < |pre| :: p[i] == raw[i] == pre[i];
    assert forall i | 0 <= i < k :: p[|pre| + i] == raw[|pre| + i] == t[i];
  }

  /** A line p=q with no '=' in p assigns to the trimmed p, if to anything. */
  lemma KeyBeforeEquals(raw: string, p: string, q: string)
    requires raw == p + ['='] + q && '=' !in p
    ensures LineEntry(raw).Some? ==> LineEntry(raw).value.key == TrimSpace(p)
  {
    var pre, p', q' := TrimAroundEquals(raw, p, q);
    IndexOfConcat(p', '=', q');
    assert (p' + ['='] + q')[..|p'|] == p';
    assert p == pre + p' + "";
    TrimIgnoresEnds(pre, p', "");
  }

  lemma OtherAssignment(name: string, value: string, key: string)
    requires '=' !in name && TrimSpace(name) != key
    ensures !Names(Assignment(name, value), key)
  {
    assert Assignment(name, value) == name + ['='] + value;
    KeyBeforeEquals(Assignment(name, value), name, value);
  }

  lemma StaleLineOther(line: string, name: string, key: string)
    requires IsStale(line, name) && '=' !in name && TrimSpace(name) != key
    ensures !Names(line, key)
  {
    var t := TrimSpace(line);
    var _, _ := TrimSplit(line);
    TrimOfTrimmed(t);
    assert t == name + ['='] + t[|name| + 1..];
    KeyBeforeEquals(t, name, t[|name| + 1..]);
    assert LineEntry(t) == LineEntry(line);
  }

  // ------------------------------------------------------------ writeEnv

  lemma ScanValue(content: string, key: string)
    ensures Lookup(ScanLines(content), key) == PanelValue(content, key)
  {
    JoinSplit(content, LF);
    LookupScanned(Split(content, LF), key);
  }

  lemma RewrittenKeeps(lines: seq<string>, updates: map<string, string>, key: string)
    requires OneLineEach(updates) && Without(lines, LF) && key !in updates
    ensures Without(Rewritten(lines, updates), LF)
    ensures Lookup(Rewritten(lines, updates), key) == Lookup(lines, key)
  {
    var a := Rewritten(lines, updates);
    forall i | 0 <= i < |lines|
      ensures LF !in a[i]
      ensures a[i] == lines[i] || (!Names(lines[i], key) && !Names(a[i], key))
    {
      RewriteKeeps(lines[i], updates, key);
    }
    FindUntouched(Entries(a), Entries(lines), key);
  }

  lemma AssignmentsKeep(keys: seq<string>, updates: map<string, string>, key: string)
    requires OneLineEach(updates) && key !in updates && forall k | k in keys :: k in updates
    ensures Without(Assignments(keys, updates), LF)
    ensures Lookup(Assignments(keys, updates), key) == None
  {
    var b := Assignments(keys, updates);
    forall i | 0 <= i < |keys| ensures LF !in b[i] && !Names(b[i], key) {
      assert keys[i] in keys;
      TrimOfTrimmed(keys[i]);
      OtherAssignment(keys[i], updates[keys[i]], key);
    }
    FindAssigned(Entries(b), key);
  }

  lemma WrittenKeeps(lines: seq<string>, updates: map<string, string>, keys: seq<string>, key: string)
    requires OneLineEach(updates) && Without(lines, LF) && AreMissing(keys, lines, updates) && key !in updates
    ensures Without(WrittenLines(lines, updates, keys), LF)
    ensures Lookup(WrittenLines(lines, updates, keys), key) == Lookup(lines, key)
  {
    RewrittenKeeps(lines, updates, key);
    AssignmentsKeep(keys, updates, key);
    LookupConcat(Rewritten(lines, updates), Assignments(keys, updates), key);
  }

  /** A line-safe update leaves the keys it does not hold alone. */
  lemma WriteKeeps(content: string, updates: map<string, string>, key: string)
    requires OneLineEach(updates) && key !in updates
    ensures PanelValue(Written(ScanLines(content), updates), key) == PanelValue(content, key)
  {
    var lines := ScanLines(content);
    var written := Written(lines, updates);
    var keys := MissingKeys(lines, updates);
    WrittenKeeps(lines, updates, keys, key);
    LookupScanned(WrittenLines(lines, updates, keys), key);
    ScanValue(written, key);
    ScanValue(content, key);
  }

  lemma RewriteKeeps(line: string, updates: map<string, string>, key: string)
    requires OneLineEach(updates) && LF !in line && key !in updates
    ensures LF !in Rewrite(line, updates)
    ensures Rewrite(line, updates) == line || (!Names(line, key) && !Names(Rewrite(line, updates), key))
  {
    RewriteCases(line, updates);
    var entry := LineEntry(line);
    if entry.Some? && entry.value.key in updates {
      var k := entry.value.key;
      BlankEntry("");
      TrimOfTrimmed(k);
      OtherAssignment(k, updates[k], key);
    }
  }

  // ----------------------------------------------- transient variables

  lemma {:induction false} FindKept(lines: seq<string>, name: string, key: string)
    requires '=' !in name && TrimSpace(name) != key
    ensures Lookup(DropStale(lines, name), key) == Lookup(lines, key)
  {
    if lines != [] {
      var n := |lines| - 1;
      assert lines == lines[..n] + [lines[n]];
      FindKept(lines[..n], name, key);
      LookupLast(lines[..n], lines[n], key);
      if IsStale(lines[n], name) {
        StaleLineOther(lines[n], name, key);
      } else {
        LookupLast(DropStale(lines[..n], name), lines[n], key);
      }
    }
  }

  lemma DropVarKeeps(content: string, name: string, key: string)
    requires '=' !in name && TrimSpace(name) != key
    ensures PanelValue(DropVar(content, name), key) == PanelValue(content, key)
  {
    FindKept(Split(content, LF), name, key);
    SplitKept(content, name);
    BlankEntry("");
  }

  lemma AppendedKeeps(content: string, name: string, value: string, key: string)
    requires '=' !in name && LF !in name && LF !in value && TrimSpace(name) != key
    ensures PanelValue(Appended(content, name, value), key) == PanelValue(content, key)
  {
    SplitAppended(content, name, value);
    OtherAssignment(name, value, key);
    BlankEntry("");
    var lines, line := Split(content, LF), Assignment(name, value);
    LookupLast(lines, line, key);
    LookupLast(lines + [line], "", key);
    assert lines + [line, ""] == lines + [line] + [""];
  }

  // ----------------------------------------------------------- Configure

  lemma {:induction false} FoundLine(lines: seq<string>, key: string) returns (i: nat)
    requires Lookup(lines, key).Some?
    ensures i < |lines| && LineEntry(lines[i]) == Some(Entry(key, Lookup(lines, key).value))
  {
    var n := |lines| - 1;
    if Names(lines[n], key) {
      i := n;
    } else {
      assert Entries(lines)[..n] == Entries(lines[..n]);
      i := FoundLine(lines[..n], key);
    }
  }

  lemma EntryValue(line: string)
    requires LineEntry(line).Some? && LF !in line
    ensures LF !in LineEntry(line).value.value
    ensures TrimRight(LineEntry(line).value.value) == LineEntry(line).value.value
  {
    var t := TrimSpace(line);
    var _, _ := TrimSplit(line);
    TrimKeepsChars(line, LF);
    var value := LineEntry(line).value.value;
    assert value == t[IndexOf(t, '=') + 1..];
    assert value != "" ==> value[|value| - 1] == t[|t| - 1];
  }

  /** A value read from the file is on one line and ends without a space. */
  lemma ReadValue(content: string, key: string)
    requires PanelValue(content, key).Some?
    ensures var value := PanelValue(content, key).value;
      LF !in value && TrimRight(value) == value
  {
    var lines := Split(content, LF);
    var i := FoundLine(lines, key);
    EntryValue(lines[i]);
  }

  ghost predicate HoldsSecrets(content: string, encryptionKey: string, authSecret: string) {
    && encryptionKey != "" && PanelValue(content, EncryptionKey) == Some(encryptionKey)
    && authSecret != "" && PanelValue(content, AuthSecret) == Some(authSecret)
  }

  lemma ConfigureKeeps(content: string, c: Config, faults: ConfigureFaults, key: string, secret: string)
    requires NewlineFree(c) && c.encryptionKey == "" && c.authSecret == ""
    requires HoldsSecrets(content, key, secret)
    ensures Completed(c, Some(content), faults).Some?
    ensures HoldsSecrets(RenderConfigEnv(Completed(c, Some(content), faults).value), key, secret)
  {
    DefaultsNewlineFree(c);
    ReadValue(content, EncryptionKey);
    ReadValue(content, AuthSecret);
    SecretsRendered(Completed(c, Some(content), faults).value);
  }

  // --------------------------------------------------------- the theorem

  /** The exact condition for a command to leave the secrets alone: every direct
      write of config.env it tries is completed, and the file could be read before
      it was rendered anew, unless the keys generated then are the old ones. */
  predicate KeepsSecrets(step: Step, key: string, secret: string) {
    match step
    case ConfigureStep(c, faults) =>
      Renders(faults) ==> faults.writes && (faults.readable || Regenerates(faults, key, secret))
    case AppendStep(_, _, faults) => faults.readable ==> faults.rewrites
    case RemoveStep(_, readable, rewrites) => readable ==> rewrites
    case _ => true
  }

  /** Nothing fails before config.env is written. */
  predicate Renders(faults: ConfigureFaults) {
    faults.prepares && (faults.readable || (faults.freshKey.Some? && faults.freshSecret.Some?))
  }

  predicate Regenerates(faults: ConfigureFaults, key: string, secret: string) {
    && faults.freshKey.Some? && TrimRight(faults.freshKey.value) == key
    && faults.freshSecret.Some? && TrimRight(faults.freshSecret.value) == secret
  }

  /** No outcome of a command loses the secrets, exactly under that condition. */
  lemma StepKeepsSecrets(step: Step, was: string, key: string, secret: string)
    requires Harmless(step) && HoldsSecrets(was, key, secret)
    ensures (forall now | Stepped(step, was, now) :: HoldsSecrets(now, key, secret)) <==>
      KeepsSecrets(step, key, secret)
  {
    if KeepsSecrets(step, key, secret) {
      forall now | Stepped(step, was, now) ensures HoldsSecrets(now, key, secret) {
        KeptByStep(step, was, now, key, secret);
      }
    } else {
      var now := LostByStep(step, was, key, secret);
    }
  }

  lemma KeptByStep(step: Step, was: string, now: string, key: string, secret: string)
    requires Harmless(step) && HoldsSecrets(was, key, secret)
    requires Stepped(step, was, now) && KeepsSecrets(step, key, secret)
    ensures HoldsSecrets(now, key, secret)
  {
    match step
    case ConfigureStep(c, faults) =>
      if faults.readable {
        ConfigureKeeps(was, c, faults, key, secret);
      } else if Renders(faults) {
        UnreadableReplaced(c, faults, was, now);
      }
    case SetupStep(p, writes) =>
      if ValidKVs(p.envKVs) && writes {
        SetupKeeps(p, was, now);
      }
    case DisableStep(writes) =>
      if writes {
        DisableWellFormed();
        SecretsNotOwned();
        WriteKeeps(was, DisableUpdates(), EncryptionKey);
        WriteKeeps(was, DisableUpdates(), AuthSecret);
      }
    case AppendStep(name, value, faults) =>
      AppendKeeps(was, name, value, faults, now, EncryptionKey);
      AppendKeeps(was, name, value, faults, now, AuthSecret);
    case RemoveStep(name, _, _) =>
      DropVarKeeps(was, name, EncryptionKey);
      DropVarKeeps(was, name, AuthSecret);
  }

  /** What fails the condition: a write that ends with a truncated file, or keys
      generated anew. */
  lemma LostByStep(step: Step, was: string, key: string, secret: string) returns (now: string)
    requires Harmless(step) && HoldsSecrets(was, key, secret) && !KeepsSecrets(step, key, secret)
    ensures Stepped(step, was, now) && !HoldsSecrets(now, key, secret)
  {
    now := "";
    TruncatedHoldsNothing();
    match step
    case ConfigureStep(c, faults) =>
      if faults.readable {
        ConfigureKeeps(was, c, faults, key, secret);
      } else if faults.writes {
        now := RenderConfigEnv(Completed(c, None, faults).value);
        UnreadableReplaced(c, faults, was, now);
      }
    case _ =>
  }

  /** A write of config.env that fails after it was truncated leaves no secret to read. */
  lemma TruncatedHoldsNothing()
    ensures forall key :: PanelValue("", key) == None
  {
    SplitAtom("", LF);
    BlankEntry("");
    forall key ensures PanelValue("", key) == None {
      LookupLast([], "", key);
      assert [] + [""] == Split("", LF);
    }
  }

  lemma SetupKeeps(p: SetupParams, was: string, now: string)
    requires Harmless(SetupStep(p, true)) && WrittenBySetup(p, was, now)
    ensures PanelValue(now, EncryptionKey) == PanelValue(was, EncryptionKey)
    ensures PanelValue(now, AuthSecret) == PanelValue(was, AuthSecret)
  {
    var updates :| IsSetupUpdates(updates, BaseUpdates(p), p.envKVs) && now == Written(ScanLines(was), updates);
    SetupOneLine(p, updates);
    SecretsNotSet(p);
    WriteKeeps(was, updates, EncryptionKey);
    WriteKeeps(was, updates, AuthSecret);
  }

  lemma AppendKeeps(was: string, name: string, value: string, faults: AppendFaults, now: string, key: string)
    requires HarmlessName(name) && LF !in value && IsSecret(key)
    requires AppendOutcome(was, name, value, faults, now) && (faults.readable ==> faults.rewrites)
    ensures PanelValue(now, key) == PanelValue(was, key)
  {
    if faults.readable {
      DropVarKeeps(was, name, key);
      ExtendedKeeps(DropVar(was, name), name, value, faults.appends, now, key);
    } else {
      ExtendedKeeps(was, name, value, faults.appends, now, key);
    }
  }

  /** Any part of the appended text leaves the other variables as they were. */
  lemma ExtendedKeeps(base: string, name: string, value: string, works: bool, now: string, key: string)
    requires '=' !in name && LF !in name && LF !in value && TrimSpace(name) != key
    requires Extended(base, AppendedText(name, value), works, now)
    ensures PanelValue(now, key) == PanelValue(base, key)
  {
    var text := AppendedText(name, value);
    assert base + text == Appended(base, name, value);
    if now == base + text {
      AppendedKeeps(base, name, value, key);
    } else if now != base {
      var q := now[|base| + 1..];
      assert now[|base|] == text[0] && now == base + [LF] + q;
      assert q <= Assignment(name, value) by {
        assert forall i | 0 <= i < |q| :: q[i] == (base + text)[|base| + 1 + i] == text[1 + i];
      }
      PartialLineKeeps(base, name, value, q, key);
    }
  }

  lemma PartialLineKeeps(base: string, name: string, value: string, q: string, key: string)
    requires '=' !in name && LF !in name && LF !in value && TrimSpace(name) != key
    requires q <= Assignment(name, value)
    ensures PanelValue(base + [LF] + q, key) == PanelValue(base, key)
  {
    PartialLineOther(name, value, q, key);
    SplitConcat(base, q, LF);
    SplitAtom(q, LF);
    LookupLast(Split(base, LF), q, key);
  }

  lemma PartialLineOther(name: string, value: string, q: string, key: string)
    requires '=' !in name && LF !in name && LF !in value && TrimSpace(name) != key
    requires q <= Assignment(name, value)
    ensures LF !in q && !Names(q, key)
  {
    if |q| <= |name| {
      assert q == name[..|q|];
      TrimKeepsChars(q, '=');
    } else {
      var part := value[..|q| - |name| - 1];
      assert q == Assignment(name, part);
      OtherAssignment(name, part, key);
    }
  }

  lemma SecretsNotSet(p: SetupParams)
    ensures EncryptionKey !in BaseUpdates(p) && AuthSecret !in BaseUpdates(p)
  {
    assert EncryptionKey[0] == 'E' && AuthSecret[1] == 'U';
  }

  lemma SecretsNotOwned()
    ensures EncryptionKey !in OwnedKeys && AuthSecret !in OwnedKeys
  {
    assert EncryptionKey[0] == 'E' && AuthSecret[1] == 'U';
  }

  ghost predicate AllHold(texts: seq<string>, key: string, secret: string) {
    forall i | 0 <= i < |texts| :: HoldsSecrets(texts[i], key, secret)
  }

  ghost predicate AllHarmless(steps: seq<Step>) {
    forall i | 0 <= i < |steps| :: Harmless(steps[i])
  }

  ghost predicate AllKeep(steps: seq<Step>, key: string, secret: string) {
    forall i | 0 <= i < |steps| :: KeepsSecrets(steps[i], key, secret)
  }

  /** Once both secrets are in the file, no run of the commands ever loses them,
      exactly when every one of them keeps them. */
  lemma SecretsSurvive(steps: seq<Step>, was: string, key: string, secret: string)
    requires AllHarmless(steps) && HoldsSecrets(was, key, secret)
    ensures (forall texts | IsRun(steps, texts) && texts[0] == was :: AllHold(texts, key, secret)) <==>
            AllKeep(steps, key, secret)
  {
    if AllKeep(steps, key, secret) {
      forall texts | IsRun(steps, texts) && texts[0] == was ensures AllHold(texts, key, secret) {
        RunKeepsSecrets(steps, texts, key, secret);
      }
    } else {
      var i :| 0 <= i < |steps| && !KeepsSecrets(steps[i], key, secret);
      var texts := LosingRun(steps, was, key, secret, i);
    }
  }

  lemma {:induction false} RunKeepsSecrets(steps: seq<Step>, texts: seq<string>, key: string, secret: string)
    requires AllHarmless(steps) && AllKeep(steps, key, secret)
    requires IsRun(steps, texts) && HoldsSecrets(texts[0], key, secret)
    ensures AllHold(texts, key, secret)
  {
    if steps != [] {
      KeptByStep(steps[0], texts[0], texts[1], key, secret);
      RunKeepsSecrets(steps[1..], texts[1..], key, secret);
      assert forall i | 0 < i < |texts| :: texts[i] == texts[1..][i - 1];
    }
  }

  /** Whatever the file holds, a command has an outcome. */
  lemma StepPossible(step: Step, was: string) returns (now: string)
    ensures Stepped(step, was, now)
  {
    match step
    case ConfigureStep(c, faults) =>
      var completed := Completed(c, if faults.readable then Some(was) else None, faults);
      now := if completed.Some? && faults.prepares && faults.writes then RenderConfigEnv(completed.value) else was;
    case SetupStep(p, writes) =>
      now := was;
      if ValidKVs(p.envKVs) && writes {
        var updates := SetupUpdatesExist(BaseUpdates(p), p.envKVs);
        now := Written(ScanLines(was), updates);
      }
    case DisableStep(writes) =>
      now := if writes then Written(ScanLines(was), DisableUpdates()) else was;
    case AppendStep(name, value, faults) =>
      var base := if faults.readable then DropVar(was, name) else was;
      now := if faults.readable && !faults.rewrites then was
             else if faults.appends then base + AppendedText(name, value) else base;
    case RemoveStep(name, readable, rewrites) =>
      now := if readable && rewrites then DropVar(was, name) else was;
  }

  lemma {:induction false} RunPossible(steps: seq<Step>, was: string) returns (texts: seq<string>)
    ensures IsRun(steps, texts) && texts[0] == was
  {
    if steps == [] {
      texts := [was];
    } else {
      var now := StepPossible(steps[0], was);
      var rest := RunPossible(steps[1..], now);
      texts := ConsRun(steps, was, rest);
    }
  }

  lemma ConsRun(steps: seq<Step>, was: string, rest: seq<string>) returns (texts: seq<string>)
    requires steps != [] && IsRun(steps[1..], rest) && Stepped(steps[0], was, rest[0])
    ensures texts == [was] + rest && IsRun(steps, texts)
  {
    texts := [was] + rest;
    forall i | 0 <= i < |steps| ensures Stepped(steps[i], texts[i], texts[i + 1]) {
      if i > 0 {
        assert Stepped(steps[1..][i - 1], rest[i - 1], rest[i]);
      }
    }
  }

  /** Up to the first command that can lose the secrets they are kept; that one
      loses them. */
  lemma {:induction false} LosingRun(steps: seq<Step>, was: string, key: string, secret: string, i: nat)
    returns (texts: seq<string>)
    requires AllHarmless(steps) && HoldsSecrets(was, key, secret)
    requires i < |steps| && !KeepsSecrets(steps[i], key, secret)
    ensures IsRun(steps, texts) && texts[0] == was && !AllHold(texts, key, secret)
  {
    var rest;
    if KeepsSecrets(steps[0], key, secret) {
      var now := KeepingStep(steps[0], was, key, secret);
      rest := LosingRun(steps[1..], now, key, secret, i - 1);
    } else {
      rest := LostAtOnce(steps, was, key, secret);
    }
    texts := ConsRun(steps, was, rest);
    LostLater(was, rest, key, secret);
  }

  lemma LostAtOnce(steps: seq<Step>, was: string, key: string, secret: string) returns (rest: seq<string>)
    requires steps != [] && Harmless(steps[0]) && !KeepsSecrets(steps[0], key, secret)
    requires HoldsSecrets(was, key, secret)
    ensures IsRun(steps[1..], rest) && Stepped(steps[0], was, rest[0]) && !AllHold(rest, key, secret)
  {
    var now := LostByStep(steps[0], was, key, secret);
    rest := RunPossible(steps[1..], now);
    assert !HoldsSecrets(rest[0], key, secret);
  }

  lemma KeepingStep(step: Step, was: string, key: string, secret: string) returns (now: string)
    requires Harmless(step) && KeepsSecrets(step, key, secret) && HoldsSecrets(was, key, secret)
    ensures Stepped(step, was, now) && HoldsSecrets(now, key, secret)
  {
    now := StepPossible(step, was);
    KeptByStep(step, was, now, key, secret);
  }

  lemma LostLater(was: string, rest: seq<string>, key: string, secret: string)
    requires !AllHold(rest, key, secret)
    ensures !AllHold([was] + rest, key, secret)
  {
    var j :| 0 <= j < |rest| && !HoldsSecrets(rest[j], key, secret);
    assert ([was] + rest)[j + 1] == rest[j];
  }

  /** The commands one after the other, on the file itself. */
  method ExecuteAll(file: ConfigFile, steps: seq<Step>, ghost key: string, ghost secret: string)
    returns (ghost texts: seq<string>)
    requires file.content.Some? && HoldsSecrets(file.content.value, key, secret)
    requires AllHarmless(steps)
    modifies file
    ensures file.content.Some? && IsRun(steps, texts)
    ensures texts[0] == old(file.content).value && texts[|steps|] == file.content.value
    ensures AllKeep(steps, key, secret) ==> AllHold(texts, key, secret)
  {
    texts := [file.content.value];
    for i := 0 to |steps|
      invariant file.content.Some? && IsRun(steps[..i], texts)
      invariant texts[0] == old(file.content).value && texts[i] == file.content.value
    {
      Execute(file, steps[i]);
      SnocRun(steps, i, texts, file.content.value);
      texts := texts + [file.content.value];
    }
    assert steps[..|steps|] == steps;
    if AllKeep(steps, key, secret) {
      RunKeepsSecrets(steps, texts, key, secret);
    }
  }

  lemma SnocRun(steps: seq<Step>, i: nat, texts: seq<string>, now: string)
    requires i < |steps| && IsRun(steps[..i], texts) && Stepped(steps[i], texts[i], now)
    ensures IsRun(steps[..i + 1], texts + [now])
  {
    var more := texts + [now];
    forall j | 0 <= j < i + 1 ensures Stepped(steps[..i + 1][j], more[j], more[j + 1]) {
      if j < i {
        assert Stepped(steps[..i][j], texts[j], texts[j + 1]);
      }
    }
  }

  /** A Configure that cannot read the file replaces the secrets with the ones
      it generates. */
  lemma UnreadableReplaced(c: Config, faults: ConfigureFaults, was: string, now: string)
    requires NewlineFree(c) && c.encryptionKey == "" && c.authSecret == ""
    requires !faults.readable && faults.prepares && faults.writes
    requires faults.freshKey.Some? && LF !in faults.freshKey.value
    requires faults.freshSecret.Some? && LF !in faults.freshSecret.value
    requires Stepped(ConfigureStep(c, faults), was, now)
    ensures PanelValue(now, EncryptionKey) == Some(TrimRight(faults.freshKey.value))
    ensures PanelValue(now, AuthSecret) == Some(TrimRight(faults.freshSecret.value))
  {
    DefaultsNewlineFree(c);
    SecretsRendered(Completed(c, None, faults).value);
  }

  /** A first Configure puts them there, unless the secret it was given or
      generated is nothing but spaces. */
  lemma FirstConfigure(c: Config, existing: Option<string>, faults: ConfigureFaults)
    requires Completed(c, existing, faults).Some?
    requires NewlineFree(Completed(c, existing, faults).value)
    ensures var done := Completed(c, existing, faults).value;
      HoldsSecrets(RenderConfigEnv(done), TrimRight(done.encryptionKey), TrimRight(done.authSecret))
      <==> (!AllSpace(done.encryptionKey) && !AllSpace(done.authSecret))
  {
    var done := Completed(c, existing, faults).value;
    SecretsRendered(done);
    BlankIffTrimmedAway(done.encryptionKey);
    BlankIffTrimmedAway(done.authSecret);
  }

  lemma BlankIffTrimmedAway(s: string)
    ensures TrimRight(s) == "" <==> AllSpace(s)
  {
    var post := TrimRightSplit(s);
    if AllSpace(s) {
      assert "" + s == s;
      TrimRightUnique("", s);
    }
  }
}
