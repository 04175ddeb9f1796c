/** The updates the letsencrypt subcommands apply to config.env
    (internal/actions/panel/letsencrypt/setup.go and disable.go). */
module Acme {
  import opened Text
  import opened EnvFile
  import opened EnvMap

  const DirectoryPath: string := ".api.letsencrypt.org/directory"
  const ProdDirectoryURL: string := "https://acme-v02" + DirectoryPath
  const StagingDirectoryURL: string := "https://acme-staging-v02" + DirectoryPath
  const ChallengeDNS01: string := "dns-01"

  /** The keys `disable` rewrites. */
  const OwnedKeys: seq<string> :=
    ["ACME_ENABLED", "ACME_CHALLENGE_TYPE", "ACME_EMAIL", "ACME_DOMAINS", "ACME_DIRECTORY_URL",
     "ACME_DNS_PROVIDER", "ACME_RENEWAL_THRESHOLD", "ACME_RENEWAL_CHECK_INTERVAL",
     "ACME_PROPAGATION_TIMEOUT", "ACME_STORAGE_PATH"]

  datatype SetupParams = SetupParams(
    domains: seq<string>, email: string, challengeType: string,
    dnsProvider: string, envKVs: seq<string>, staging: bool)

  // ------------------------------------------------------------- setup

  function BaseUpdates(p: SetupParams): map<string, string> {
    map["ACME_ENABLED" := "true",
        "ACME_CHALLENGE_TYPE" := p.challengeType,
        "ACME_EMAIL" := p.email,
        "ACME_DOMAINS" := Join(p.domains, ','),
        "ACME_DIRECTORY_URL" := if p.staging then StagingDirectoryURL else ProdDirectoryURL,
        "ACME_DNS_PROVIDER" := if p.challengeType == ChallengeDNS01 then p.dnsProvider else RemoveMarker]
  }

  /** An --env argument KEY=VALUE, cut at its first '='. */
  function ParseKV(kv: string): Option<Entry> {
    var i := IndexOf(kv, '=');
    if i == |kv| then None else Some(Entry(TrimSpace(kv[..i]), TrimSpace(kv[i + 1..])))
  }

  /** Spaces around the key and the value do not count; without '=' it is an error. */
  lemma KVSpelled(key: string, value: string)
    requires '=' !in key
    ensures ParseKV(key + ['='] + value) == Some(Entry(TrimSpace(key), TrimSpace(value)))
    ensures ParseKV(key) == None
  {
    IndexOfConcat(key, '=', value);
    var kv := key + ['='] + value;
    assert kv[..|key|] == key && kv[|key| + 1..] == value;
  }

  predicate ValidKVs(kvs: seq<string>) {
    forall i | 0 <= i < |kvs| :: ParseKV(kvs[i]).Some?
  }

  function KVEntries(kvs: seq<string>): (entries: seq<Option<Entry>>)
    ensures |entries| == |kvs|
    ensures forall i | 0 <= i < |kvs| :: entries[i] == ParseKV(kvs[i])
  {
    seq(|kvs|, i requires 0 <= i < |kvs| => ParseKV(kvs[i]))
  }

  /** The last argument for a key wins, and wins over the fixed settings. */
  ghost predicate IsSetupUpdates(updates: map<string, string>, base: map<string, string>, kvs: seq<string>) {
    forall key ::
      match Find(KVEntries(kvs), key)
      case Some(value) => key in updates && updates[key] == value
      case None => (key in updates <==> key in base) && (key in updates ==> updates[key] == base[key])
  }

  method BuildUpdates(p: SetupParams) returns (updates: Option<map<string, string>>)
    ensures updates.Some? <==> ValidKVs(p.envKVs)
    ensures updates.Some? ==> IsSetupUpdates(updates.value, BaseUpdates(p), p.envKVs)
  {
    var directoryURL := ProdDirectoryURL;
    if p.staging {
      directoryURL := StagingDirectoryURL;
    }
    var u := map["ACME_ENABLED" := "true",
                 "ACME_CHALLENGE_TYPE" := p.challengeType,
                 "ACME_EMAIL" := p.email,
                 "ACME_DOMAINS" := Join(p.domains, ','),
                 "ACME_DIRECTORY_URL" := directoryURL];
    if p.challengeType == ChallengeDNS01 {
      u := u["ACME_DNS_PROVIDER" := p.dnsProvider];
    } else {
      u := u["ACME_DNS_PROVIDER" := RemoveMarker];
    }
    assert u == BaseUpdates(p);
    updates := ApplyKVs(u, p.envKVs);
  }

  /** The loop over the --env arguments. */
  method ApplyKVs(base: map<string, string>, kvs: seq<string>) returns (updates: Option<map<string, string>>)
    ensures updates.Some? <==> ValidKVs(kvs)
    ensures updates.Some? ==> IsSetupUpdates(updates.value, base, kvs)
  {
    var u := base;
    for i := 0 to |kvs|
      invariant ValidKVs(kvs[..i])
      invariant IsSetupUpdates(u, base, kvs[..i])
    {
      var entry := ParseKV(kvs[i]);
      if entry.None? {
        return None;
      }
      SetupUpdatesNext(u, base, kvs[..i], kvs[i]);
      assert kvs[..i + 1] == kvs[..i] + [kvs[i]];
      u := u[entry.value.key := entry.value.value];
    }
    assert kvs[..|kvs|] == kvs;
    return Some(u);
  }

  /** Valid arguments always come to an update map. */
  lemma {:induction false} SetupUpdatesExist(base: map<string, string>, kvs: seq<string>)
    returns (updates: map<string, string>)
    requires ValidKVs(kvs)
    ensures IsSetupUpdates(updates, base, kvs)
  {
    if kvs == [] {
      updates := base;
    } else {
      var n := |kvs| - 1;
      assert forall i | 0 <= i < n :: kvs[..n][i] == kvs[i];
      var before := SetupUpdatesExist(base, kvs[..n]);
      var entry := ParseKV(kvs[n]).value;
      updates := before[entry.key := entry.value];
      SetupUpdatesNext(before, base, kvs[..n], kvs[n]);
      assert kvs[..n] + [kvs[n]] == kvs;
    }
  }

  /** One more argument is one more assignment. */
  lemma SetupUpdatesNext(updates: map<string, string>, base: map<string, string>, kvs: seq<string>, kv: string)
    requires IsSetupUpdates(updates, base, kvs) && ParseKV(kv).Some?
    ensures IsSetupUpdates(updates[ParseKV(kv).value.key := ParseKV(kv).value.value], base, kvs + [kv])
  {
    var more := KVEntries(kvs + [kv]);
    assert more[..|kvs|] == KVEntries(kvs);
    assert more[|kvs|] == ParseKV(kv);
    forall key
      ensures Find(more, key) ==
        if Assigns(ParseKV(kv), key) then Some(ParseKV(kv).value.value) else Find(KVEntries(kvs), key)
    {
    }
  }

  // ----------------------------------------------------------- disable

  function DisableUpdates(): map<string, string> {
    map key | key in OwnedKeys :: if key == "ACME_ENABLED" then "false" else RemoveMarker
  }

  method BuildDisableUpdates() returns (updates: map<string, string>)
    ensures updates == DisableUpdates()
  {
    updates := map["ACME_ENABLED" := "false"];
    assert OwnedKeys[0] == "ACME_ENABLED";
    for i := 0 to |OwnedKeys|
      invariant forall key :: key in updates <==> key == "ACME_ENABLED" || key in OwnedKeys[..i]
      invariant forall key | key in updates :: updates[key] == if key == "ACME_ENABLED" then "false" else RemoveMarker
    {
      var key := OwnedKeys[i];
      assert forall k :: k in OwnedKeys[..i + 1] <==> k in OwnedKeys[..i] || k == key;
      if key == "ACME_ENABLED" {
        continue;
      }
      updates := updates[key := RemoveMarker];
    }
    assert OwnedKeys[..|OwnedKeys|] == OwnedKeys;
  }

  // ------------------------------------------ what the updates may hold

  /** Keys and values that cannot break a line or start another one. */
  predicate OneLineEach(updates: map<string, string>) {
    forall key | key in updates ::
      && Trimmed(key) && '=' !in key && LF !in key
      && LF !in updates[key]
  }

  predicate NewlineFreeParams(p: SetupParams) {
    && LF !in p.email && LF !in p.challengeType && LF !in p.dnsProvider
    && Without(p.domains, LF) && Without(p.envKVs, LF)
  }

  lemma {:induction false} JoinWithout(parts: seq<string>, sep: char, c: char)
    requires Without(parts, c) && c != sep
    ensures c !in Join(parts, sep)
  {
    if |parts| > 1 {
      JoinWithout(parts[1..], sep, c);
    }
  }

  lemma ParsedKV(kv: string)
    requires ParseKV(kv).Some? && LF !in kv
    ensures var e := ParseKV(kv).value;
      Trimmed(e.key) && '=' !in e.key && LF !in e.key && LF !in e.value
  {
    var i := IndexOf(kv, '=');
    var _, _ := TrimSplit(kv[..i]);
    TrimKeepsChars(kv[..i], '=');
    TrimKeepsChars(kv[..i], LF);
    TrimKeepsChars(kv[i + 1..], LF);
  }

  lemma SetupKeysOk()
    ensures KeyOk("ACME_ENABLED") && KeyOk("ACME_CHALLENGE_TYPE") && KeyOk("ACME_EMAIL")
  {
  }

  lemma DomainKeysOk()
    ensures KeyOk("ACME_DOMAINS") && KeyOk("ACME_DIRECTORY_URL")
  {
  }

  lemma ProviderKeyOk()
    ensures KeyOk("ACME_DNS_PROVIDER") && KeyOk("ACME_STORAGE_PATH")
  {
  }

  lemma RenewalKeysOk()
    ensures KeyOk("ACME_RENEWAL_THRESHOLD") && KeyOk("ACME_RENEWAL_CHECK_INTERVAL")
  {
  }

  lemma TimeoutKeyOk()
    ensures KeyOk("ACME_PROPAGATION_TIMEOUT")
  {
  }

  lemma ConstantValuesOk()
    ensures LF !in RemoveMarker && LF !in "true" && LF !in "false"
  {
  }

  lemma DirectoryURLsOk()
    ensures LF !in ProdDirectoryURL && LF !in StagingDirectoryURL
  {
    assert LF !in DirectoryPath;
    assert LF !in "https://acme-v02" && LF !in "https://acme-staging-v02";
  }

  lemma BaseOneLine(p: SetupParams)
    requires NewlineFreeParams(p)
    ensures OneLineEach(BaseUpdates(p))
  {
    SetupKeysOk();
    DomainKeysOk();
    ProviderKeyOk();
    ConstantValuesOk();
    DirectoryURLsOk();
    JoinWithout(p.domains, ',', LF);
  }

  /** A key the arguments set was parsed from one of them. */
  lemma {:induction false} FoundKV(kvs: seq<string>, key: string) returns (i: nat)
    requires Find(KVEntries(kvs), key).Some?
    ensures i < |kvs| && ParseKV(kvs[i]) == Some(Entry(key, Find(KVEntries(kvs), key).value))
  {
    var n := |kvs| - 1;
    if Assigns(ParseKV(kvs[n]), key) {
      i := n;
    } else {
      assert KVEntries(kvs)[..n] == KVEntries(kvs[..n]);
      i := FoundKV(kvs[..n], key);
    }
  }

  lemma SetupOneLine(p: SetupParams, updates: map<string, string>)
    requires NewlineFreeParams(p) && IsSetupUpdates(updates, BaseUpdates(p), p.envKVs)
    ensures OneLineEach(updates)
  {
    BaseOneLine(p);
    forall key | key in updates
      ensures Trimmed(key) && '=' !in key && LF !in key && LF !in updates[key]
    {
      if Find(KVEntries(p.envKVs), key).Some? {
        var i := FoundKV(p.envKVs, key);
        ParsedKV(p.envKVs[i]);
      }
    }
  }

  lemma DisableWellFormed()
    ensures WellFormed(DisableUpdates())
  {
    SetupKeysOk();
    DomainKeysOk();
    ProviderKeyOk();
    RenewalKeysOk();
    TimeoutKeyOk();
    ConstantValuesOk();
  }

  /** After `disable`, ACME_ENABLED reads false, the other owned keys are gone
      and every other key reads as before. */
  lemma DisableEffect(content: string)
    ensures EnvValues(ScanLines(Written(ScanLines(content), DisableUpdates())))
      == (EnvValues(ScanLines(content)) - set key | key in OwnedKeys) + map["ACME_ENABLED" := "false"]
  {
    DisableWellFormed();
    WriteRefinesUpdate(content, DisableUpdates());
    DisableAsUpdate(EnvValues(ScanLines(content)));
  }

  lemma MarkedButOne(before: map<string, string>, updates: map<string, string>, kept: string)
    requires kept in updates && updates[kept] != RemoveMarker
    requires forall key | key in updates :: key == kept || updates[key] == RemoveMarker
    ensures Updated(before, updates) == (before - updates.Keys) + map[kept := TrimSpace(updates[kept])]
  {
  }

  lemma DisableAsUpdate(before: map<string, string>)
    ensures Updated(before, DisableUpdates()) == (before - set key | key in OwnedKeys) + map["ACME_ENABLED" := "false"]
  {
    assert OwnedKeys[0] == "ACME_ENABLED";
    assert |RemoveMarker| == 12;
    MarkedButOne(before, DisableUpdates(), "ACME_ENABLED");
    TrimOfTrimmed("false");
    assert DisableUpdates().Keys == set key | key in OwnedKeys;
  }

  // -------------------------------------------------- what setup leaves

  /** The directory of Let's Encrypt that is asked for certificates. */
  lemma DirectorySpelled(p: SetupParams)
    ensures BaseUpdates(p)["ACME_DIRECTORY_URL"] ==
      (if p.staging then "https://acme-staging-v02" else "https://acme-v02") + ".api.letsencrypt.org/directory"
  {
  }

  /** No argument names one of the keys that setup writes itself. */
  predicate OverridesNothing(p: SetupParams) {
    forall key | key in BaseUpdates(p) :: Find(KVEntries(p.envKVs), key) == None
  }

  /** What a key that setup writes reads as afterwards. */
  lemma SetupReads(content: string, p: SetupParams, updates: map<string, string>, key: string)
    requires IsSetupUpdates(updates, BaseUpdates(p), p.envKVs) && WellFormed(updates)
    requires key in BaseUpdates(p) && Find(KVEntries(p.envKVs), key) == None
    ensures var value, now := BaseUpdates(p)[key], EnvValues(ScanLines(Written(ScanLines(content), updates)));
      if value == RemoveMarker then key !in now else Reads(now, key, TrimSpace(value))
  {
    assert key in updates && updates[key] == BaseUpdates(p)[key];
    UpdatedAt(content, updates, key);
  }

  predicate Reads(values: map<string, string>, key: string, value: string) {
    key in values && values[key] == value
  }

  /** A key that arguments set reads as the last of them says. */
  lemma ArgumentReads(content: string, p: SetupParams, updates: map<string, string>, key: string, value: string)
    requires IsSetupUpdates(updates, BaseUpdates(p), p.envKVs) && WellFormed(updates)
    requires Find(KVEntries(p.envKVs), key) == Some(value) && value != RemoveMarker
    ensures Reads(EnvValues(ScanLines(Written(ScanLines(content), updates))), key, TrimSpace(value))
  {
    assert key in updates && updates[key] == value;
    UpdatedAt(content, updates, key);
  }

  /** After setup the file reads as the parameters say; the provider is only there
      for the challenge that needs it. */
  lemma SetupEffect(content: string, p: SetupParams, updates: map<string, string>)
    requires IsSetupUpdates(updates, BaseUpdates(p), p.envKVs) && WellFormed(updates) && OverridesNothing(p)
    requires p.dnsProvider != RemoveMarker && p.email != RemoveMarker && p.challengeType != RemoveMarker
    requires Join(p.domains, ',') != RemoveMarker
    ensures var now := EnvValues(ScanLines(Written(ScanLines(content), updates)));
      && Reads(now, "ACME_ENABLED", "true")
      && Reads(now, "ACME_CHALLENGE_TYPE", TrimSpace(p.challengeType))
      && Reads(now, "ACME_EMAIL", TrimSpace(p.email))
      && Reads(now, "ACME_DOMAINS", TrimSpace(Join(p.domains, ',')))
      && (p.challengeType == "dns-01" ==> Reads(now, "ACME_DNS_PROVIDER", TrimSpace(p.dnsProvider)))
      && (p.challengeType != "dns-01" ==> "ACME_DNS_PROVIDER" !in now)
  {
    SwitchAndProvider(content, p, updates);
    BaseSpelled(p);
    SetupReads(content, p, updates, "ACME_CHALLENGE_TYPE");
    SetupReads(content, p, updates, "ACME_EMAIL");
    SetupReads(content, p, updates, "ACME_DOMAINS");
  }

  lemma SwitchAndProvider(content: string, p: SetupParams, updates: map<string, string>)
    requires IsSetupUpdates(updates, BaseUpdates(p), p.envKVs) && WellFormed(updates) && OverridesNothing(p)
    requires p.dnsProvider != RemoveMarker
    ensures var now := EnvValues(ScanLines(Written(ScanLines(content), updates)));
      && Reads(now, "ACME_ENABLED", "true")
      && (p.challengeType == "dns-01" ==> Reads(now, "ACME_DNS_PROVIDER", TrimSpace(p.dnsProvider)))
      && (p.challengeType != "dns-01" ==> "ACME_DNS_PROVIDER" !in now)
  {
    MarkerLength();
    TrimOfTrimmed("true");
    ProviderSpelled(p);
    SetupReads(content, p, updates, "ACME_ENABLED");
    SetupReads(content, p, updates, "ACME_DNS_PROVIDER");
  }

  lemma BaseSpelled(p: SetupParams)
    ensures var base := BaseUpdates(p);
      && Reads(base, "ACME_CHALLENGE_TYPE", p.challengeType)
      && Reads(base, "ACME_EMAIL", p.email)
      && Reads(base, "ACME_DOMAINS", Join(p.domains, ','))
  {
  }

  lemma ProviderSpelled(p: SetupParams)
    ensures var base := BaseUpdates(p);
      && Reads(base, "ACME_ENABLED", "true")
      && Reads(base, "ACME_DNS_PROVIDER", if p.challengeType == "dns-01" then p.dnsProvider else RemoveMarker)
  {
  }

  lemma MarkerLength()
    ensures |RemoveMarker| == 12
  {
  }

  /** Disabling takes away everything setup writes but the switch, which is off,
      and what an administrator may have added; nothing else is touched. */
  lemma DisableLeaves(content: string, key: string)
    ensures var before := EnvValues(ScanLines(content));
      var now := EnvValues(ScanLines(Written(ScanLines(content), DisableUpdates())));
      && Reads(now, "ACME_ENABLED", "false")
      && (IsSetting(key) || IsTuning(key) ==> key !in now)
      && (key != "ACME_ENABLED" && !IsSetting(key) && !IsTuning(key) ==>
            (key in now <==> key in before) && (key in now ==> now[key] == before[key]))
  {
    DisableEffect(content);
    SettingsOwned(key);
    TuningOwned(key);
    if key in OwnedKeys {
      OwnsNoOther(key);
    }
  }

  predicate IsSetting(key: string) {
    || key == "ACME_CHALLENGE_TYPE" || key == "ACME_EMAIL" || key == "ACME_DOMAINS"
    || key == "ACME_DIRECTORY_URL" || key == "ACME_DNS_PROVIDER"
  }

  predicate IsTuning(key: string) {
    || key == "ACME_RENEWAL_THRESHOLD" || key == "ACME_RENEWAL_CHECK_INTERVAL"
    || key == "ACME_PROPAGATION_TIMEOUT" || key == "ACME_STORAGE_PATH"
  }

  lemma SettingsOwned(key: string)
    ensures IsSetting(key) ==> key in OwnedKeys && key != "ACME_ENABLED"
  {
    assert OwnedKeys[1] == "ACME_CHALLENGE_TYPE" && OwnedKeys[2] == "ACME_EMAIL";
    assert OwnedKeys[3] == "ACME_DOMAINS" && OwnedKeys[4] == "ACME_DIRECTORY_URL";
    assert OwnedKeys[5] == "ACME_DNS_PROVIDER";
  }

  lemma TuningOwned(key: string)
    ensures IsTuning(key) ==> key in OwnedKeys && key != "ACME_ENABLED"
  {
    assert OwnedKeys[6] == "ACME_RENEWAL_THRESHOLD" && OwnedKeys[7] == "ACME_RENEWAL_CHECK_INTERVAL";
    assert OwnedKeys[8] == "ACME_PROPAGATION_TIMEOUT" && OwnedKeys[9] == "ACME_STORAGE_PATH";
  }

  /** And those ten are all the keys it owns. */
  lemma OwnsNoOther(key: string)
    requires key in OwnedKeys
    ensures key == "ACME_ENABLED" || IsSetting(key) || IsTuning(key)
  {
  }
}
