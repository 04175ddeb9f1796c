/** Finding a release and its asset in a list
    (pkg/releasefinder/release_finder.go). */
module ReleaseLookup {
  import opened Text
  import opened Versions

  datatype Asset = Asset(name: string, downloadURL: string)
  datatype ListedRelease = ListedRelease(tag: string, prerelease: bool, draft: bool, assets: seq<Asset>)
  datatype Found = Found(url: string, tag: string, assetName: string)

  datatype LookupError = TagNotFound(tag: string) | NoAsset(os: string, arch: string, latestTag: string)
  datatype Result = Ok(found: Found) | Err(error: LookupError)

  datatype Options = Options(tag: string, tagPrefix: string, allowPrerelease: bool)

  // -------------------------------------------------------------- assets

  function Needle(tag: string, os: string, arch: string): string {
    tag + "-" + os + "-" + arch + "."
  }

  predicate Fits(asset: Asset, tag: string, os: string, arch: string) {
    Contains(asset.name, Needle(tag, os, arch))
  }

  function MatchAsset(release: ListedRelease, os: string, arch: string): Option<Found> {
    FirstFit(release, os, arch, 0)
  }

  function FirstFit(release: ListedRelease, os: string, arch: string, from: nat): Option<Found>
    requires from <= |release.assets|
    decreases |release.assets| - from
  {
    if from == |release.assets| then None
    else
      var asset := release.assets[from];
      if Fits(asset, release.tag, os, arch) then Some(Found(asset.downloadURL, release.tag, asset.name))
      else FirstFit(release, os, arch, from + 1)
  }

  ghost predicate IsFirstFit(release: ListedRelease, os: string, arch: string, i: nat) {
    && i < |release.assets|
    && Fits(release.assets[i], release.tag, os, arch)
    && (forall j | 0 <= j < i :: !Fits(release.assets[j], release.tag, os, arch))
  }

  /** The asset that is taken is the first that fits, and none means that no
      asset fits. */
  lemma MatchAssetMeaning(release: ListedRelease, os: string, arch: string)
    ensures var r := MatchAsset(release, os, arch);
      if r.Some?
      then exists i: nat :: IsFirstFit(release, os, arch, i)
             && r.value == Found(release.assets[i].downloadURL, release.tag, release.assets[i].name)
      else forall i | 0 <= i < |release.assets| :: !Fits(release.assets[i], release.tag, os, arch)
  {
    FirstFitFrom(release, os, arch, 0);
  }

  lemma {:induction false} FirstFitFrom(release: ListedRelease, os: string, arch: string, from: nat)
    requires from <= |release.assets|
    requires forall j | 0 <= j < from :: !Fits(release.assets[j], release.tag, os, arch)
    ensures var r := FirstFit(release, os, arch, from);
      if r.Some?
      then exists i: nat :: IsFirstFit(release, os, arch, i)
             && r.value == Found(release.assets[i].downloadURL, release.tag, release.assets[i].name)
      else forall i | 0 <= i < |release.assets| :: !Fits(release.assets[i], release.tag, os, arch)
    decreases |release.assets| - from
  {
    if from < |release.assets| {
      if Fits(release.assets[from], release.tag, os, arch) {
        assert IsFirstFit(release, os, arch, from);
      } else {
        FirstFitFrom(release, os, arch, from + 1);
      }
    }
  }

  /** How release assets are named. */
  function AssetName(prefix: string, tag: string, os: string, arch: string, ext: string): string {
    prefix + tag + "-" + os + "-" + arch + "." + ext
  }

  lemma NameHoldsNeedle(prefix: string, tag: string, os: string, arch: string, ext: string)
    ensures AssetName(prefix, tag, os, arch, ext) == prefix + (Needle(tag, os, arch) + ext)
  {
  }

  ghost predicate OccursOnce(s: string, sub: string, at: nat) {
    forall k: nat :: OccursAt(s, sub, k) <==> k == at
  }

  lemma CutEqual(a: string, b: string, c: char, x: string, y: string)
    requires c !in a && c !in b
    requires a + [c] <= b + [c] + y
    ensures a == b
  {
    var s := b + [c] + y;
    assert s == a + [c] + s[|a| + 1..];
    IndexOfConcat(a, c, s[|a| + 1..]);
    IndexOfConcat(b, c, y);
    assert a == s[..|a|] && b == s[..|b|];
  }

  lemma DropCommon(head: string, p: string, s: string)
    requires head + p <= head + s
    ensures p <= s
  {
    SamePrefix(head, p, s);
  }

  lemma PrefixOccurs(s: string, a: string, b: string, k: nat)
    requires OccursAt(s, b, k) && a <= b
    ensures OccursAt(s, a, k)
  {
    assert s[k..k + |a|] == s[k..k + |b|][..|a|];
  }

  /** When the tag occurs once in an asset's name, the asset fits exactly the
      system it was built for: mips never takes mips64. */
  lemma FitsOwnSystem(asset: Asset, prefix: string, tag: string, os: string, arch: string,
                      os': string, arch': string, ext: string)
    requires asset.name == AssetName(prefix, tag, os', arch', ext) && OccursOnce(asset.name, tag, |prefix|)
    requires '-' !in os && '-' !in os' && '.' !in arch && '.' !in arch'
    ensures Fits(asset, tag, os, arch) <==> os == os' && arch == arch'
  {
    if Fits(asset, tag, os, arch) {
      FitDetermines(asset, prefix, tag, os, arch, os', arch', ext);
    }
    if os == os' && arch == arch' {
      NameHoldsNeedle(prefix, tag, os, arch, ext);
      assert OccursAt(asset.name, Needle(tag, os, arch), |prefix|);
    }
  }

  lemma FitDetermines(asset: Asset, prefix: string, tag: string, os: string, arch: string,
                      os': string, arch': string, ext: string)
    requires asset.name == AssetName(prefix, tag, os', arch', ext) && OccursOnce(asset.name, tag, |prefix|)
    requires '-' !in os && '-' !in os' && '.' !in arch && '.' !in arch'
    requires Fits(asset, tag, os, arch)
    ensures os == os' && arch == arch'
  {
    var name, needle := asset.name, Needle(tag, os, arch);
    var rest := Needle(tag, os', arch') + ext;
    NameHoldsNeedle(prefix, tag, os', arch', ext);
    var k: nat :| OccursAt(name, needle, k);
    assert needle == tag + ("-" + os + "-" + arch + ".");
    PrefixOccurs(name, tag, needle, k);
    assert k == |prefix| && name == prefix + rest;
    PrefixOf(prefix, rest, needle);
    NeedleDetermines(tag, os, arch, os', arch', ext);
  }

  lemma PrefixOf(prefix: string, rest: string, needle: string)
    requires OccursAt(prefix + rest, needle, |prefix|)
    ensures needle <= rest
  {
    var s := prefix + rest;
    assert s[|prefix|..|prefix| + |needle|] == rest[..|needle|];
  }

  lemma NeedleDetermines(tag: string, os: string, arch: string, os': string, arch': string, ext: string)
    requires Needle(tag, os, arch) <= Needle(tag, os', arch') + ext
    requires '-' !in os && '-' !in os' && '.' !in arch && '.' !in arch'
    ensures os == os' && arch == arch'
  {
    var head := tag + "-";
    var p, s := os + "-" + (arch + "."), os' + "-" + (arch' + "." + ext);
    assert Needle(tag, os, arch) == head + p;
    assert Needle(tag, os', arch') + ext == head + s;
    DropCommon(head, p, s);
    assert os + ['-'] <= s by {
      assert p[..|os| + 1] == os + "-";
    }
    CutEqual(os, os', '-', "", arch' + "." + ext);
    assert p == (os + "-") + (arch + ".") && s == (os + "-") + (arch' + "." + ext);
    DropCommon(os + "-", arch + ".", arch' + "." + ext);
    CutEqual(arch, arch', '.', "", ext);
  }

  /** What an asset was built for, and how the rest of its name goes. */
  datatype Build = Build(prefix: string, os: string, arch: string, ext: string)

  /** Each asset is named for its build, with the tag once in its name. */
  ghost predicate NamedFor(release: ListedRelease, builds: seq<Build>) {
    && |builds| == |release.assets|
    && forall i | 0 <= i < |builds| :: IsNamed(release.assets[i].name, release.tag, builds[i])
  }

  ghost predicate IsNamed(name: string, tag: string, b: Build) {
    && name == b.prefix + tag + "-" + b.os + "-" + b.arch + "." + b.ext
    && OccursOnce(name, tag, |b.prefix|)
    && '-' !in b.os && '.' !in b.arch
  }

  ghost predicate FirstBuildAt(builds: seq<Build>, os: string, arch: string, i: nat) {
    && i < |builds| && builds[i].os == os && builds[i].arch == arch
    && forall j | 0 <= j < i :: builds[j].os != os || builds[j].arch != arch
  }

  predicate HasBuild(builds: seq<Build>, os: string, arch: string) {
    exists i | 0 <= i < |builds| :: builds[i].os == os && builds[i].arch == arch
  }

  /** Of assets named that way, the first one built for the system is taken, and
      there is none exactly when none was built for it. */
  lemma MatchesOwnBuild(release: ListedRelease, builds: seq<Build>, os: string, arch: string)
    requires NamedFor(release, builds) && '-' !in os && '.' !in arch
    ensures MatchAsset(release, os, arch).Some? <==> HasBuild(builds, os, arch)
    ensures forall i: nat | FirstBuildAt(builds, os, arch, i) :: MatchAsset(release, os, arch) ==
              Some(Found(release.assets[i].downloadURL, release.tag, release.assets[i].name))
  {
    MatchAssetMeaning(release, os, arch);
    forall i | 0 <= i < |builds|
      ensures Fits(release.assets[i], release.tag, os, arch) <==> builds[i].os == os && builds[i].arch == arch
    {
      var b := builds[i];
      assert IsNamed(release.assets[i].name, release.tag, b);
      FitsOwnSystem(release.assets[i], b.prefix, release.tag, os, arch, b.os, b.arch, b.ext);
    }
    forall i: nat, k: nat | FirstBuildAt(builds, os, arch, i) && IsFirstFit(release, os, arch, k) ensures i == k {}
  }

  // --------------------------------------------------------------- lists

  predicate Eligible(r: ListedRelease, opts: Options) {
    && (opts.allowPrerelease || (!r.prerelease && !r.draft))
    && (opts.tagPrefix == "" || HasPrefix(r.tag, opts.tagPrefix))
  }

  predicate Serves(r: ListedRelease, os: string, arch: string, opts: Options) {
    Eligible(r, opts) && MatchAsset(r, os, arch).Some?
  }

  /** The tag an error names: the first eligible one that is not empty. */
  function FirstEligibleTag(list: seq<ListedRelease>, opts: Options): string {
    if list == [] then ""
    else if Eligible(list[0], opts) && list[0].tag != "" then list[0].tag
    else FirstEligibleTag(list[1..], opts)
  }

  lemma {:induction false} FirstEligibleStep(list: seq<ListedRelease>, opts: Options, i: nat)
    requires i < |list|
    ensures FirstEligibleTag(list[..i + 1], opts) ==
      if FirstEligibleTag(list[..i], opts) != "" then FirstEligibleTag(list[..i], opts)
      else if Eligible(list[i], opts) then list[i].tag else ""
  {
    if i == 0 {
      assert list[..1][1..] == [];
    } else {
      FirstEligibleStep(list[1..], opts, i - 1);
      assert list[..i + 1][1..] == list[1..][..i];
      assert list[..i][1..] == list[1..][..i - 1];
    }
  }

  /** The first eligible release with an asset for the system. */
  method FindReleaseFromList(list: seq<ListedRelease>, os: string, arch: string, opts: Options) returns (result: Result)
    ensures result.Ok? ==> exists i | 0 <= i < |list| ::
      && Serves(list[i], os, arch, opts) && (forall j | 0 <= j < i :: !Serves(list[j], os, arch, opts))
      && MatchAsset(list[i], os, arch) == Some(result.found)
    ensures result.Err? ==>
      && (forall i | 0 <= i < |list| :: !Serves(list[i], os, arch, opts))
      && result.error == NoAsset(os, arch, FirstEligibleTag(list, opts))
  {
    var firstEligibleTag := "";
    for i := 0 to |list|
      invariant forall j | 0 <= j < i :: !Serves(list[j], os, arch, opts)
      invariant firstEligibleTag == FirstEligibleTag(list[..i], opts)
    {
      FirstEligibleStep(list, opts, i);
      var release := list[i];
      if !opts.allowPrerelease && (release.prerelease || release.draft) {
        continue;
      }
      if opts.tagPrefix != "" && !HasPrefix(release.tag, opts.tagPrefix) {
        continue;
      }
      if firstEligibleTag == "" {
        firstEligibleTag := release.tag;
      }
      var matched := MatchAsset(release, os, arch);
      if matched.Some? {
        return Ok(matched.value);
      }
    }
    assert list[..|list|] == list;
    return Err(NoAsset(os, arch, firstEligibleTag));
  }

  // ------------------------------------------------------- pinned lookup

  /** The answer of one release to a pinned lookup. */
  function FromSingle(release: ListedRelease, os: string, arch: string): Result {
    match MatchAsset(release, os, arch)
    case Some(found) => Ok(found)
    case None => Err(NoAsset(os, arch, release.tag))
  }

  /** findReleaseByTagFromList: the first release with the tag decides. */
  method FindReleaseByTagFromList(list: seq<ListedRelease>, os: string, arch: string, tag: string)
    returns (result: Result)
    ensures result == ByTag(list, os, arch, tag)
  {
    for i := 0 to |list|
      invariant ByTag(list, os, arch, tag) == ByTag(list[i..], os, arch, tag)
    {
      assert list[i..][1..] == list[i + 1..];
      var release := list[i];
      if release.tag != tag {
        continue;
      }
      var matched := MatchAsset(release, os, arch);
      if matched.Some? {
        return Ok(matched.value);
      }
      return Err(NoAsset(os, arch, release.tag));
    }
    return Err(TagNotFound(tag));
  }

  function ByTag(list: seq<ListedRelease>, os: string, arch: string, tag: string): Result {
    if list == [] then Err(TagNotFound(tag))
    else if list[0].tag == tag then FromSingle(list[0], os, arch)
    else ByTag(list[1..], os, arch, tag)
  }

  predicate UniqueTags(list: seq<ListedRelease>) {
    forall i, j | 0 <= i < j < |list| :: list[i].tag != list[j].tag
  }

  /** What the releases/tags/<tag> endpoint of a server with this list answers:
      the release with the tag, or 404. */
  ghost predicate EndpointAnswers(list: seq<ListedRelease>, tag: string, answer: Option<ListedRelease>) {
    match answer
    case Some(release) => release in list && release.tag == tag
    case None => forall r | r in list :: r.tag != tag
  }

  /** The lookup through the endpoint. */
  function FromEndpoint(answer: Option<ListedRelease>, os: string, arch: string, tag: string): Result {
    match answer
    case Some(release) => FromSingle(release, os, arch)
    case None => Err(TagNotFound(tag))
  }

  /** With unique tags a mirror's list and GitHub's endpoint give the same
      result, be it an asset, a missing asset or an unknown tag. */
  lemma {:induction false} ListAgreesWithEndpoint(list: seq<ListedRelease>, os: string, arch: string, tag: string,
                                                  answer: Option<ListedRelease>)
    requires UniqueTags(list) && EndpointAnswers(list, tag, answer)
    ensures ByTag(list, os, arch, tag) == FromEndpoint(answer, os, arch, tag)
  {
    if list != [] && list[0].tag == tag {
      if answer.Some? {
        var i :| 0 <= i < |list| && list[i] == answer.value;
        assert i == 0;
      }
    } else if list != [] {
      forall r | r in list[1..] ensures r in list {}
      assert answer.Some? ==> answer.value in list[1..];
      ListAgreesWithEndpoint(list[1..], os, arch, tag, answer);
    }
  }

  /** Both lookups find a system in a release exactly when it has a build for it:
      the list lookup among the eligible ones, the pinned one in the first release
      with the tag. */
  lemma LookupsFindBuilds(list: seq<ListedRelease>, builds: seq<Build>, os: string, arch: string, opts: Options, i: nat)
    requires i < |list| && NamedFor(list[i], builds) && '-' !in os && '.' !in arch
    ensures Serves(list[i], os, arch, opts) <==> Eligible(list[i], opts) && HasBuild(builds, os, arch)
    ensures (forall j | 0 <= j < i :: list[j].tag != list[i].tag) ==>
      (ByTag(list, os, arch, list[i].tag).Ok? <==> HasBuild(builds, os, arch))
  {
    MatchesOwnBuild(list[i], builds, os, arch);
    if forall j | 0 <= j < i :: list[j].tag != list[i].tag {
      ByTagAt(list, os, arch, i);
    }
  }

  lemma {:induction false} ByTagAt(list: seq<ListedRelease>, os: string, arch: string, i: nat)
    requires i < |list| && forall j | 0 <= j < i :: list[j].tag != list[i].tag
    ensures ByTag(list, os, arch, list[i].tag) == FromSingle(list[i], os, arch)
  {
    if i > 0 {
      ByTagAt(list[1..], os, arch, i - 1);
    }
  }

  /** With a prefix that NormalizeTag made of a minor version, list lookup finds
      no release of another minor version. */
  lemma PrefixSelectsLine(m: string, n: string, r: ListedRelease,
                          a: string, b: string, c: string, suffix: string, opts: Options)
    requires IsNumber(m) && IsNumber(n) && opts.tagPrefix == "v" + m + "." + n + "."
    requires IsParsed(a, b, c, suffix) && r.tag == FullTag(a, b, c, suffix)
    requires Eligible(r, opts)
    ensures m == a && n == b
  {
    MinorPrefixSelects(m, n, a, b, c, suffix);
  }
}
