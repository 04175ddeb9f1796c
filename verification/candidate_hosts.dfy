/** Which host to dial when the panel's certificate does not cover the host of
    the connect URL: the hosts the certificate names that could be this
    machine, best first, and the first of them that shows the same
    certificate. (internal/actions/daemon/install/resolve_address.go) */
module CandidateHosts {
  import opened Text
  import Order

  /** One IP address of a certificate, with what package net says about it. */
  datatype IP = IP(text: string, unspecified: bool, linkLocal: bool, loopback: bool)

  datatype Certificate = Certificate(raw: string, ips: seq<IP>, dnsNames: seq<string>)

  /** The library functions: net.ParseIP followed by String, strings.EqualFold
      and x509's VerifyHostname. */
  datatype Library = Library(
    canonicalIP: string -> Option<string>,
    equalFold: (string, string) -> bool,
    covers: (Certificate, string) -> bool)

  /** Everything the choice depends on. */
  datatype Setting = Setting(lib: Library, cert: Certificate, localIPs: seq<string>, origHost: string)

  function NormalizeHost(lib: Library, host: string): string {
    var parsed := lib.canonicalIP(host);
    if parsed.Some? then parsed.value else host
  }

  /** ipPreferenceWeight */
  function Weight(lib: Library, ip: string): int {
    if lib.canonicalIP(ip).Some? && ':' in ip then 0
    else if "127." <= ip then 100
    else if "169." <= ip then 200
    else if "172." <= ip then 300
    else if "10." <= ip then 400
    else if "192.168" <= ip then 500
    else 1000
  }

  /** The address ranges, from the least to the most preferred. */
  const RangePrefixes: seq<string> := ["127.", "169.", "172.", "10.", "192.168"]

  predicate IsIPv6(lib: Library, ip: string) {
    lib.canonicalIP(ip).Some? && ':' in ip
  }

  predicate InRange(lib: Library, ip: string, i: nat)
    requires i < 5
  {
    !IsIPv6(lib, ip) && RangePrefixes[i] <= ip
  }

  predicate InNoRange(lib: Library, ip: string) {
    !IsIPv6(lib, ip) && forall i | 0 <= i < 5 :: !(RangePrefixes[i] <= ip)
  }

  lemma RangeWeight(lib: Library, ip: string, i: nat)
    requires i < 5 && InRange(lib, ip, i)
    ensures Weight(lib, ip) == 100 * (i + 1)
  {
    var p := RangePrefixes[i];
    assert ip[0] == p[0] && ip[1] == p[1];
    assert i < 3 ==> ip[2] == p[2];
  }

  /** Addresses outside all ranges go before 192.168 ones, these before 10 ones,
      and so on down to loopback ones; IPv6 addresses come last. */
  lemma WeightOrder(lib: Library, ip: string, other: string)
    ensures forall i: nat, j: nat | i < j < 5 && InRange(lib, ip, i) && InRange(lib, other, j) ::
      Weight(lib, ip) < Weight(lib, other)
    ensures forall i: nat | i < 5 && InRange(lib, ip, i) && InNoRange(lib, other) ::
      Weight(lib, ip) < Weight(lib, other)
    ensures IsIPv6(lib, ip) && !IsIPv6(lib, other) ==> Weight(lib, ip) < Weight(lib, other)
    ensures forall i: nat | i < 5 && InRange(lib, ip, i) && InRange(lib, other, i) ::
      Weight(lib, ip) == Weight(lib, other)
  {
    forall i: nat | i < 5 && InRange(lib, ip, i) ensures Weight(lib, ip) == 100 * (i + 1) {
      RangeWeight(lib, ip, i);
    }
    forall j: nat | j < 5 && InRange(lib, other, j) ensures Weight(lib, other) == 100 * (j + 1) {
      RangeWeight(lib, other, j);
    }
    if InNoRange(lib, other) {
      assert !(RangePrefixes[0] <= other) && !(RangePrefixes[1] <= other) && !(RangePrefixes[2] <= other);
      assert !(RangePrefixes[3] <= other) && !(RangePrefixes[4] <= other);
    }
  }

  // -------------------------------------------------- what is to come out

  datatype Tier = LocalIP | LoopbackIP | DNSName | Localhost

  function Level(t: Tier): nat {
    match t
    case LocalIP => 0
    case LoopbackIP => 1
    case DNSName => 2
    case Localhost => 3
  }

  /** One reason to dial a host: an entry of the certificate. */
  datatype Origin = Origin(host: string, tier: Tier, weight: int, index: nat)

  predicate AssignedHere(s: Setting, text: string) {
    exists ip | ip in s.localIPs :: s.lib.canonicalIP(ip) == Some(text)
  }

  predicate WorthDialing(s: Setting, ip: IP) {
    ip.text != NormalizeHost(s.lib, s.origHost) && !ip.unspecified && !ip.linkLocal
  }

  predicate UsableName(s: Setting, name: string) {
    '*' !in name && !s.lib.equalFold(name, s.origHost)
  }

  predicate IsLocalhost(s: Setting, name: string) {
    s.lib.equalFold(name, "localhost")
  }

  /** How many certificate entries a tier draws on; "localhost" counts as one
      entry however often it is named. */
  function Entries(s: Setting, t: Tier): nat {
    match t
    case LocalIP => |s.cert.ips|
    case LoopbackIP => |s.cert.ips|
    case DNSName => |s.cert.dnsNames|
    case Localhost => 1
  }

  predicate Applies(s: Setting, t: Tier, n: nat)
    requires n < Entries(s, t)
  {
    match t
    case LocalIP => WorthDialing(s, s.cert.ips[n]) && !s.cert.ips[n].loopback && AssignedHere(s, s.cert.ips[n].text)
    case LoopbackIP => WorthDialing(s, s.cert.ips[n]) && s.cert.ips[n].loopback
    case DNSName => UsableName(s, s.cert.dnsNames[n]) && !IsLocalhost(s, s.cert.dnsNames[n])
    case Localhost => exists name | name in s.cert.dnsNames :: UsableName(s, name) && IsLocalhost(s, name)
  }

  function Reason(s: Setting, t: Tier, n: nat): (o: Origin)
    requires n < Entries(s, t)
    ensures o.tier == t && o.index == n && (t != LocalIP ==> o.weight == 0)
  {
    match t
    case LocalIP => Origin(s.cert.ips[n].text, t, Weight(s.lib, s.cert.ips[n].text), n)
    case LoopbackIP => Origin(s.cert.ips[n].text, t, 0, n)
    case DNSName => Origin(s.cert.dnsNames[n], t, 0, n)
    case Localhost => Origin("localhost", t, 0, n)
  }

  predicate IsOrigin(s: Setting, o: Origin) {
    && o.index < Entries(s, o.tier)
    && Applies(s, o.tier, o.index)
    && o == Reason(s, o.tier, o.index)
  }

  /** By tier, then the heavier weight, then the earlier certificate entry. */
  predicate Better(o: Origin, p: Origin) {
    || Level(o.tier) < Level(p.tier)
    || (o.tier == p.tier && (o.weight > p.weight || (o.weight == p.weight && o.index < p.index)))
  }

  ghost predicate IsCandidate(s: Setting, host: string) {
    exists o :: IsOrigin(s, o) && o.host == host
  }

  /** One host goes before another when it has a reason that beats all of the
      other's. */
  ghost predicate Preferred(s: Setting, a: string, b: string) {
    exists o :: Outranks(s, o, a, b)
  }

  ghost predicate Outranks(s: Setting, o: Origin, a: string, b: string) {
    && IsOrigin(s, o) && o.host == a
    && forall p | IsOrigin(s, p) && p.host == b :: Better(o, p)
  }

  /** Each candidate once, best first. */
  ghost predicate IsPreferenceOrder(s: Setting, hosts: seq<string>) {
    && (forall i, j | 0 <= i < j < |hosts| :: hosts[i] != hosts[j])
    && (forall h :: h in hosts <==> IsCandidate(s, h))
    && (forall i, j | 0 <= i < j < |hosts| :: Preferred(s, hosts[i], hosts[j]))
  }

  /** The host that was given is not tried again, however its address is written;
      nor is a name with a wildcard. */
  lemma OriginalNotCandidate(s: Setting, o: Origin)
    requires IsOrigin(s, o)
    ensures o.tier == LocalIP || o.tier == LoopbackIP ==>
      match s.lib.canonicalIP(s.origHost)
      case Some(canonical) => o.host != canonical
      case None => o.host != s.origHost
    ensures o.tier == DNSName ==> '*' !in o.host && !s.lib.equalFold(o.host, s.origHost)
  {
  }

  /** There is only one such list. */
  lemma PreferenceOrderUnique(s: Setting, a: seq<string>, b: seq<string>)
    requires IsPreferenceOrder(s, a) && IsPreferenceOrder(s, b)
    ensures a == b
  {
    var byPreference := (x, y) => IsCandidate(s, x) && IsCandidate(s, y) && Preferred(s, x, y);
    forall x, o ensures !Outranks(s, o, x, x) {
      assert !Better(o, o);
    }
    forall x, y, z | byPreference(x, y) && byPreference(y, z) ensures byPreference(x, z) {
      PreferredTransitive(s, x, y, z);
    }
    Order.SortedUnique(a, b, byPreference);
  }

  lemma PreferredTransitive(s: Setting, x: string, y: string, z: string)
    requires Preferred(s, x, y) && Preferred(s, y, z)
    ensures Preferred(s, x, z)
  {
    var o :| Outranks(s, o, x, y);
    var q :| Outranks(s, q, y, z);
    assert Better(o, q);
    assert Outranks(s, o, x, z);
  }

  // --------------------------------------------------- how it is computed

  /** sortIPsByPreference: a stable sort, heavier addresses first. */
  function SortByPreference(lib: Library, ips: seq<string>): (r: seq<string>)
    ensures |r| == |ips|
  {
    var order := PreferencePositions(lib, ips);
    seq(|ips|, k requires 0 <= k < |ips| => ips[order[k]])
  }

  function Keys(lib: Library, ips: seq<string>): (keys: seq<int>)
    ensures |keys| == |ips| && forall i | 0 <= i < |ips| :: keys[i] == -Weight(lib, ips[i])
  {
    seq(|ips|, i requires 0 <= i < |ips| => -Weight(lib, ips[i]))
  }

  function PreferencePositions(lib: Library, ips: seq<string>): (p: seq<nat>)
    ensures Order.StablySorted(Keys(lib, ips), p)
    ensures |p| == |ips| && forall i | 0 <= i < |p| :: p[i] < |ips|
  {
    Order.StableOrder(Keys(lib, ips))
  }

  /** The reasons a tier finds in its first n entries, in entry order. */
  function Origins(s: Setting, t: Tier, n: nat): seq<Origin>
    requires n <= Entries(s, t)
  {
    if n == 0 then []
    else Origins(s, t, n - 1) + if Applies(s, t, n - 1) then [Reason(s, t, n - 1)] else []
  }

  function Hosts(origins: seq<Origin>): (hosts: seq<string>)
    ensures |hosts| == |origins| && forall i | 0 <= i < |origins| :: hosts[i] == origins[i].host
  {
    seq(|origins|, i requires 0 <= i < |origins| => origins[i].host)
  }

  lemma HostsConcat(a: seq<Origin>, b: seq<Origin>)
    ensures Hosts(a + b) == Hosts(a) + Hosts(b)
  {
  }

  lemma HostsNext(s: Setting, t: Tier, n: nat)
    requires n < Entries(s, t)
    ensures Hosts(Origins(s, t, n + 1)) ==
            Hosts(Origins(s, t, n)) + if Applies(s, t, n) then [Reason(s, t, n).host] else []
  {
  }

  ghost predicate Sorted(origins: seq<Origin>) {
    forall i, j | 0 <= i < j < |origins| :: Better(origins[i], origins[j])
  }

  /** Exactly the reasons of one tier out of its first n entries. */
  ghost predicate Exactly(s: Setting, t: Tier, n: nat, origins: seq<Origin>)
    requires n <= Entries(s, t)
  {
    && (forall i | 0 <= i < |origins| :: IsOrigin(s, origins[i]) && origins[i].tier == t && origins[i].index < n)
    && (forall k: nat | k < n && Applies(s, t, k) :: Reason(s, t, k) in origins)
  }

  ghost predicate InEntryOrder(origins: seq<Origin>) {
    forall i, j | 0 <= i < j < |origins| :: origins[i].index < origins[j].index
  }

  lemma {:induction false} OriginsExact(s: Setting, t: Tier, n: nat)
    requires n <= Entries(s, t)
    ensures Exactly(s, t, n, Origins(s, t, n)) && InEntryOrder(Origins(s, t, n))
  {
    if n > 0 {
      OriginsExact(s, t, n - 1);
      var before, o := Origins(s, t, n - 1), Reason(s, t, n - 1);
      if Applies(s, t, n - 1) {
        ExactlyNext(s, t, n - 1, before, o);
        assert Origins(s, t, n) == before + [o];
      } else {
        ExactlySame(s, t, n - 1, before);
        assert Origins(s, t, n) == before;
      }
    }
  }

  lemma ExactlySame(s: Setting, t: Tier, n: nat, before: seq<Origin>)
    requires n < Entries(s, t) && !Applies(s, t, n)
    requires Exactly(s, t, n, before)
    ensures Exactly(s, t, n + 1, before)
  {
  }

  lemma ExactlyNext(s: Setting, t: Tier, n: nat, before: seq<Origin>, o: Origin)
    requires n < Entries(s, t) && Applies(s, t, n) && o == Reason(s, t, n)
    requires Exactly(s, t, n, before) && InEntryOrder(before)
    ensures Exactly(s, t, n + 1, before + [o]) && InEntryOrder(before + [o])
  {
    forall k: nat | k < n + 1 && Applies(s, t, k) ensures Reason(s, t, k) in before + [o] {
      if k < n {
        assert Reason(s, t, k) in before;
      }
    }
  }

  /** The reasons that belong to the sorted local addresses. */
  lemma SortedOrigins(s: Setting) returns (r: seq<Origin>)
    ensures SortByPreference(s.lib, Hosts(Origins(s, LocalIP, |s.cert.ips|))) == Hosts(r)
    ensures Sorted(r) && Exactly(s, LocalIP, |s.cert.ips|, r)
  {
    var origins := Origins(s, LocalIP, |s.cert.ips|);
    var p := PreferencePositions(s.lib, Hosts(origins));
    OriginsExact(s, LocalIP, |s.cert.ips|);
    r := Rearranged(origins, p);
    RearrangedSorted(s, origins, p);
    RearrangedExact(s, origins, p);
  }

  function Rearranged(origins: seq<Origin>, p: seq<nat>): (r: seq<Origin>)
    requires |p| == |origins| && forall i | 0 <= i < |p| :: p[i] < |origins|
    ensures |r| == |p| && forall i | 0 <= i < |p| :: r[i] == origins[p[i]]
  {
    seq(|p|, k requires 0 <= k < |p| => origins[p[k]])
  }

  lemma RearrangedSorted(s: Setting, origins: seq<Origin>, p: seq<nat>)
    requires Exactly(s, LocalIP, |s.cert.ips|, origins) && InEntryOrder(origins)
    requires p == PreferencePositions(s.lib, Hosts(origins))
    ensures Sorted(Rearranged(origins, p))
  {
    var keys := Keys(s.lib, Hosts(origins));
    var r := Rearranged(origins, p);
    forall k | 0 <= k < |r| ensures r[k].tier == LocalIP && r[k].weight == -keys[p[k]] {
      assert IsOrigin(s, origins[p[k]]);
      assert Hosts(origins)[p[k]] == origins[p[k]].host;
    }
    forall a, b | 0 <= a < b < |r| ensures Better(r[a], r[b]) {
      assert Order.Before(keys, p[a], p[b]);
    }
  }

  lemma RearrangedExact(s: Setting, origins: seq<Origin>, p: seq<nat>)
    requires Exactly(s, LocalIP, |s.cert.ips|, origins)
    requires Order.Permutation(p, |origins|)
    ensures Exactly(s, LocalIP, |s.cert.ips|, Rearranged(origins, p))
  {
    var r := Rearranged(origins, p);
    forall k: nat | k < |s.cert.ips| && Applies(s, LocalIP, k) ensures Reason(s, LocalIP, k) in r {
      var i :| 0 <= i < |origins| && origins[i] == Reason(s, LocalIP, k);
      Order.PermutationCovers(p, |origins|, i);
      var m :| 0 <= m < |p| && p[m] == i;
      assert r[m] == Reason(s, LocalIP, k);
    }
  }

  /** The set of local addresses in canonical form. */
  method LocalSet(s: Setting) returns (local: set<string>)
    ensures forall t :: t in local <==> AssignedHere(s, t)
  {
    local := {};
    for i := 0 to |s.localIPs|
      invariant forall t :: t in local <==> exists k :: 0 <= k < i && s.lib.canonicalIP(s.localIPs[k]) == Some(t)
    {
      var parsed := s.lib.canonicalIP(s.localIPs[i]);
      if parsed.Some? {
        local := local + {parsed.value};
      }
    }
    forall t ensures t in local <==> AssignedHere(s, t) {
      if t in local {
        var k :| 0 <= k < |s.localIPs| && s.lib.canonicalIP(s.localIPs[k]) == Some(t);
        assert s.localIPs[k] in s.localIPs;
      }
    }
  }

  /** The loop over the certificate's IP addresses. */
  method PickIPs(s: Setting, local: set<string>) returns (localSAN: seq<string>, loopbackSAN: seq<string>)
    requires forall t :: t in local <==> AssignedHere(s, t)
    ensures localSAN == Hosts(Origins(s, LocalIP, |s.cert.ips|))
    ensures loopbackSAN == Hosts(Origins(s, LoopbackIP, |s.cert.ips|))
  {
    localSAN, loopbackSAN := [], [];
    for i := 0 to |s.cert.ips|
      invariant localSAN == Hosts(Origins(s, LocalIP, i))
      invariant loopbackSAN == Hosts(Origins(s, LoopbackIP, i))
    {
      var ip := s.cert.ips[i];
      HostsNext(s, LocalIP, i);
      HostsNext(s, LoopbackIP, i);
      if ip.text == NormalizeHost(s.lib, s.origHost) || ip.unspecified || ip.linkLocal {
        continue;
      }
      if ip.loopback {
        loopbackSAN := loopbackSAN + [ip.text];
        continue;
      }
      if ip.text in local {
        localSAN := localSAN + [ip.text];
      }
    }
  }

  /** The loop over the certificate's DNS names. */
  method PickNames(s: Setting) returns (dnsSAN: seq<string>, hasLocalhost: bool)
    ensures dnsSAN == Hosts(Origins(s, DNSName, |s.cert.dnsNames|))
    ensures hasLocalhost <==> Applies(s, Localhost, 0)
  {
    dnsSAN, hasLocalhost := [], false;
    for i := 0 to |s.cert.dnsNames|
      invariant dnsSAN == Hosts(Origins(s, DNSName, i))
      invariant hasLocalhost <==> NamesLocalhost(s, i)
    {
      var name := s.cert.dnsNames[i];
      HostsNext(s, DNSName, i);
      if '*' in name || s.lib.equalFold(name, s.origHost) {
        continue;
      }
      if s.lib.equalFold(name, "localhost") {
        hasLocalhost := true;
        continue;
      }
      dnsSAN := dnsSAN + [name];
    }
    if hasLocalhost {
      var k :| 0 <= k < |s.cert.dnsNames| && UsableName(s, s.cert.dnsNames[k]) && IsLocalhost(s, s.cert.dnsNames[k]);
      assert s.cert.dnsNames[k] in s.cert.dnsNames;
    }
  }

  ghost predicate NamesLocalhost(s: Setting, n: nat)
    requires n <= |s.cert.dnsNames|
  {
    exists k :: 0 <= k < n && UsableName(s, s.cert.dnsNames[k]) && IsLocalhost(s, s.cert.dnsNames[k])
  }

  ghost predicate FirstBefore(values: seq<string>, a: string, b: string) {
    exists k :: 0 <= k < |values| && values[k] == a && FirstAfter(values, b, k)
  }

  ghost predicate FirstAfter(values: seq<string>, v: string, k: nat)
    requires k < |values|
  {
    forall m | 0 <= m <= k :: values[m] != v
  }

  /** dedupStrings: each value once, where it first appears. */
  method Dedup(values: seq<string>) returns (out: seq<string>)
    ensures forall i, j | 0 <= i < j < |out| :: out[i] != out[j]
    ensures forall v :: v in out <==> v in values
    ensures forall i, j | 0 <= i < j < |out| :: FirstBefore(values, out[i], out[j])
  {
    var seen: set<string> := {};
    out := [];
    for i := 0 to |values|
      invariant forall v :: v in seen <==> v in values[..i]
      invariant forall v :: v in out <==> v in seen
      invariant forall a, b | 0 <= a < b < |out| :: out[a] != out[b]
      invariant forall a, b | 0 <= a < b < |out| :: FirstBefore(values, out[a], out[b])
    {
      var v := values[i];
      assert values[..i + 1] == values[..i] + [v];
      if v in seen {
        continue;
      }
      forall a | 0 <= a < |out| ensures FirstBefore(values, out[a], v) {
        assert out[a] in values[..i];
        var k :| 0 <= k < i && values[..i][k] == out[a];
        forall m | 0 <= m <= k ensures values[m] != v {
          assert values[m] in values[..i];
        }
        assert FirstAfter(values, v, k);
      }
      seen := seen + {v};
      out := out + [v];
    }
    assert values[..|values|] == values;
  }

  /** candidateHostsFromCert */
  method CandidateHostsFromCert(s: Setting) returns (hosts: seq<string>)
    ensures IsPreferenceOrder(s, hosts)
  {
    var local := LocalSet(s);
    var localSAN, loopbackSAN := PickIPs(s, local);
    var dnsSAN, hasLocalhost := PickNames(s);
    var candidates := SortByPreference(s.lib, localSAN);
    candidates := candidates + loopbackSAN;
    candidates := candidates + dnsSAN;
    if hasLocalhost {
      candidates := candidates + ["localhost"];
    }
    ghost var origins := AllOrigins(s, candidates);
    hosts := Dedup(candidates);
    InPreferenceOrder(s, origins, hosts);
  }

  /** The four tiers one after the other: every reason, best first. */
  lemma AllOrigins(s: Setting, candidates: seq<string>) returns (all: seq<Origin>)
    requires candidates ==
      SortByPreference(s.lib, Hosts(Origins(s, LocalIP, |s.cert.ips|)))
      + Hosts(Origins(s, LoopbackIP, |s.cert.ips|))
      + Hosts(Origins(s, DNSName, |s.cert.dnsNames|))
      + if Applies(s, Localhost, 0) then ["localhost"] else []
    ensures candidates == Hosts(all) && Sorted(all)
    ensures forall o :: o in all <==> IsOrigin(s, o)
  {
    var sorted := SortedOrigins(s);
    var loopback, names := Origins(s, LoopbackIP, |s.cert.ips|), Origins(s, DNSName, |s.cert.dnsNames|);
    var last := Origins(s, Localhost, 1);
    OriginsExact(s, LoopbackIP, |s.cert.ips|);
    OriginsExact(s, DNSName, |s.cert.dnsNames|);
    OriginsExact(s, Localhost, 1);
    SortedTier(s, LoopbackIP, loopback);
    SortedTier(s, DNSName, names);
    SortedTier(s, Localhost, last);
    all := sorted + loopback + names + last;
    EveryReason(s, sorted, loopback, names, last);
    HostsConcat(sorted, loopback);
    HostsConcat(sorted + loopback, names);
    HostsConcat(sorted + loopback + names, last);
    HostsNext(s, Localhost, 0);
  }

  lemma EveryReason(s: Setting, sorted: seq<Origin>, loopback: seq<Origin>, names: seq<Origin>, last: seq<Origin>)
    requires Exactly(s, LocalIP, Entries(s, LocalIP), sorted) && Sorted(sorted)
    requires Exactly(s, LoopbackIP, Entries(s, LoopbackIP), loopback) && Sorted(loopback)
    requires Exactly(s, DNSName, Entries(s, DNSName), names) && Sorted(names)
    requires Exactly(s, Localhost, Entries(s, Localhost), last) && Sorted(last)
    ensures var all := sorted + loopback + names + last;
      Sorted(all) && forall o :: o in all <==> IsOrigin(s, o)
  {
    var all := sorted + loopback + names + last;
    TiersSorted(sorted, loopback);
    TiersSorted(sorted + loopback, names);
    TiersSorted(sorted + loopback + names, last);
    forall o ensures o in all <==> IsOrigin(s, o) {
      assert o in all <==> o in sorted || o in loopback || o in names || o in last;
      if IsOrigin(s, o) {
        assert o == Reason(s, o.tier, o.index);
      }
    }
  }

  lemma TiersSorted(a: seq<Origin>, b: seq<Origin>)
    requires Sorted(a) && Sorted(b)
    requires forall i, j | 0 <= i < |a| && 0 <= j < |b| :: Level(a[i].tier) < Level(b[j].tier)
    ensures Sorted(a + b)
  {
  }

  /** Outside the local addresses all weights are the same. */
  lemma SortedTier(s: Setting, t: Tier, origins: seq<Origin>)
    requires t != LocalIP && Exactly(s, t, Entries(s, t), origins) && InEntryOrder(origins)
    ensures Sorted(origins)
  {
  }

  lemma InPreferenceOrder(s: Setting, origins: seq<Origin>, hosts: seq<string>)
    requires Sorted(origins)
    requires forall o :: o in origins <==> IsOrigin(s, o)
    requires forall i, j | 0 <= i < j < |hosts| :: hosts[i] != hosts[j]
    requires forall v :: v in hosts <==> v in Hosts(origins)
    requires forall i, j | 0 <= i < j < |hosts| :: FirstBefore(Hosts(origins), hosts[i], hosts[j])
    ensures IsPreferenceOrder(s, hosts)
  {
    var values := Hosts(origins);
    forall h ensures h in values <==> IsCandidate(s, h) {
      if h in values {
        var i :| 0 <= i < |values| && values[i] == h;
        assert IsOrigin(s, origins[i]);
      }
      if IsCandidate(s, h) {
        var o :| IsOrigin(s, o) && o.host == h;
        var i :| 0 <= i < |origins| && origins[i] == o;
        assert values[i] == h;
      }
    }
    forall i, j | 0 <= i < j < |hosts| ensures Preferred(s, hosts[i], hosts[j]) {
      assert FirstBefore(values, hosts[i], hosts[j]);
      var k :| 0 <= k < |values| && values[k] == hosts[i] && FirstAfter(values, hosts[j], k);
      forall p | IsOrigin(s, p) && p.host == hosts[j] ensures Better(origins[k], p) {
        var m :| 0 <= m < |origins| && origins[m] == p;
        assert values[m] == hosts[j];
      }
      assert Outranks(s, origins[k], hosts[i], hosts[j]);
    }
  }

  // ------------------------------------------------------ choosing a host

  /** What dialing an address gave: no answer, an answer without a
      certificate, or the certificate presented. */
  datatype Probe = Unreachable | NoCertificate | Presents(leaf: Certificate)

  datatype ConnectInfo = ConnectInfo(host: string, port: string, setupKey: string) {
    /** net.JoinHostPort */
    function Address(): string {
      if ':' in host then "[" + host + "]:" + port else host + ":" + port
    }

    function URL(): string {
      "grpc://" + Address() + "/" + setupKey
    }
  }

  /** How a connect URL is written; an IPv6 address goes in brackets. */
  lemma URLSpelled(info: ConnectInfo)
    ensures info.URL() ==
      if ':' in info.host then "grpc://[" + info.host + "]:" + info.port + "/" + info.setupKey
      else "grpc://" + info.host + ":" + info.port + "/" + info.setupKey
  {
    if ':' in info.host {
      assert "grpc://" + ("[" + info.host + "]:" + info.port) == "grpc://[" + info.host + "]:" + info.port;
    } else {
      assert "grpc://" + (info.host + ":" + info.port) == "grpc://" + info.host + ":" + info.port;
    }
  }

  /** The same certificate answers at the host and covers it. */
  predicate Proven(s: Setting, info: ConnectInfo, probe: string -> Probe, host: string) {
    var answer := probe(info.(host := host).Address());
    answer.Presents? && answer.leaf.raw == s.cert.raw && s.lib.covers(answer.leaf, host)
  }

  /** The candidate that goes before all others that prove themselves. */
  ghost predicate IsBest(s: Setting, info: ConnectInfo, probe: string -> Probe, h: string) {
    && IsCandidate(s, h) && Proven(s, info, probe, h)
    && forall g | g != h && IsCandidate(s, g) && Proven(s, info, probe, g) :: Preferred(s, h, g)
  }

  /** rewriteToCoveredCandidate: the best candidate that proves itself, and an
      error exactly when none does. */
  method RewriteToCoveredCandidate(s: Setting, info: ConnectInfo, probe: string -> Probe)
    returns (url: Option<string>)
    ensures url.Some? ==> exists h :: IsBest(s, info, probe, h) && url.value == info.(host := h).URL()
    ensures url.None? <==> forall h | IsCandidate(s, h) :: !Proven(s, info, probe, h)
  {
    var candidates := CandidateHostsFromCert(s);
    for i := 0 to |candidates|
      invariant forall k | 0 <= k < i :: !Proven(s, info, probe, candidates[k])
    {
      var candInfo := info.(host := candidates[i]);
      var res := probe(candInfo.Address());
      if !res.Presents? {
        continue;
      }
      if res.leaf.raw != s.cert.raw || !s.lib.covers(res.leaf, candidates[i]) {
        continue;
      }
      BestProven(s, info, probe, candidates, i);
      assert IsBest(s, info, probe, candidates[i]);
      return Some(candInfo.URL());
    }
    return None;
  }

  lemma BestProven(s: Setting, info: ConnectInfo, probe: string -> Probe, hosts: seq<string>, i: nat)
    requires IsPreferenceOrder(s, hosts) && i < |hosts|
    requires forall k | 0 <= k < i :: !Proven(s, info, probe, hosts[k])
    ensures IsCandidate(s, hosts[i])
    ensures forall g | g != hosts[i] && IsCandidate(s, g) && Proven(s, info, probe, g) :: Preferred(s, hosts[i], g)
  {
    assert hosts[i] in hosts;
    forall g | g != hosts[i] && IsCandidate(s, g) && Proven(s, info, probe, g) ensures Preferred(s, hosts[i], g) {
      var k :| 0 <= k < |hosts| && hosts[k] == g;
    }
  }

  /** resolveConnectAddress once the URL is parsed: None is an error. The host
      that is used is one the panel's certificate covers, unless the panel
      shows no certificate; and it is the given one whenever that will do. */
  method ResolveConnectAddress(
    lib: Library, rawURL: string, info: ConnectInfo, localIPs: seq<string>, probe: string -> Probe)
    returns (url: Option<string>)
    ensures var first := probe(info.Address());
      && (first.Unreachable? ==> url == None)
      && (first.NoCertificate? ==> url == Some(rawURL))
      && (first.Presents? && lib.covers(first.leaf, info.host) ==> url == Some(rawURL))
      && (first.Presents? && !lib.covers(first.leaf, info.host) ==>
            var s := Setting(lib, first.leaf, localIPs, info.host);
            if url.Some?
            then exists h :: IsBest(s, info, probe, h) && url.value == info.(host := h).URL()
            else forall h | IsCandidate(s, h) :: !Proven(s, info, probe, h))
  {
    var result := probe(info.Address());
    if result.Unreachable? {
      return None;
    }
    if result.NoCertificate? {
      return Some(rawURL);
    }
    if lib.covers(result.leaf, info.host) {
      return Some(rawURL);
    }
    url := RewriteToCoveredCandidate(Setting(lib, result.leaf, localIPs, info.host), info, probe);
  }
}
