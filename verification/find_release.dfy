/** Resolving a release from the ordered sources
    (pkg/releasesource/selector.go, pkg/releasesource/source.go). */
module FindRelease {
  import opened Text
  import opened ReleaseSource
  import ReleaseLookup

  datatype Component = GameAPCtl | Panel | Daemon | UnknownComponent(name: string)

  /** A release as the finder returns it, and as the selector hands it on. */
  type Found = ReleaseLookup.Found
  datatype Release = Release(tag: string, assetName: string, urls: seq<string>)

  datatype FindError =
    | RateLimited
    | Lookup(error: ReleaseLookup.LookupError)    // no such tag, or no such asset
    | OtherError(message: string)

  /** What one resolution attempt answers, and whether the context was cancelled by then. */
  datatype Reply = Ok(release: Found) | Err(error: FindError, cancelled: bool)

  /** The result; Failed(None) is Go's nil error with a nil release. */
  datatype Result = Resolved(release: Release) | Failed(error: Option<FindError>)

  /** The requests a run makes: one bounded attempt each, then the full retry. */
  datatype Request = Try(src: Source, url: string, noRetry: bool) | FullRetry(src: Source, url: string)

  // ---------------------------------------------------------------- URLs

  function ComponentPath(c: Component): string {
    match c
    case GameAPCtl => "gameapctl"
    case Panel => "gameap"
    case Daemon => "gameap-daemon"
    case UnknownComponent(name) => name
  }

  /** The daemon's GitHub repository is named differently from its CDN path. */
  function GitHubReleasesPath(c: Component): Option<string> {
    match c
    case GameAPCtl => Some("/repos/gameap/gameapctl/releases")
    case Panel => Some("/repos/gameap/gameap/releases")
    case Daemon => Some("/repos/gameap/daemon/releases")
    case UnknownComponent(_) => None
  }

  function ReleasesURL(s: Source, c: Component): string {
    if s.kind == GitHub
    then s.baseURL + (match GitHubReleasesPath(c) case Some(path) => path case None => "")
    else s.baseURL + "/" + ComponentPath(c) + "/releases.json"
  }

  function DownloadURL(s: Source, c: Component, rel: Found): string {
    if s.kind == GitHub then rel.url
    else s.baseURL + "/" + ComponentPath(c) + "/" + rel.tag + "/" + rel.assetName
  }

  function DownloadURLs(sources: seq<Source>, c: Component, rel: Found): (urls: seq<string>)
    ensures |urls| == |sources| && forall i | 0 <= i < |sources| :: urls[i] == DownloadURL(sources[i], c, rel)
  {
    seq(|sources|, i requires 0 <= i < |sources| => DownloadURL(sources[i], c, rel))
  }

  function OthersThan(sources: seq<Source>, name: string): seq<Source> {
    if sources == [] then []
    else
      var others := OthersThan(sources[..|sources| - 1], name);
      if sources[|sources| - 1].name == name then others else others + [sources[|sources| - 1]]
  }

  method BuildRelease(chosen: Source, ordered: seq<Source>, c: Component, rel: Found) returns (r: Release)
    ensures r == Release(rel.tag, rel.assetName,
      [DownloadURL(chosen, c, rel)] + DownloadURLs(OthersThan(ordered, chosen.name), c, rel))
  {
    var urls := [DownloadURL(chosen, c, rel)];
    for i := 0 to |ordered|
      invariant urls == [DownloadURL(chosen, c, rel)] + DownloadURLs(OthersThan(ordered[..i], chosen.name), c, rel)
    {
      assert ordered[..i + 1][..i] == ordered[..i];
      if ordered[i].name == chosen.name {
        continue;
      }
      urls := urls + [DownloadURL(ordered[i], c, rel)];
    }
    assert ordered[..|ordered|] == ordered;
    r := Release(rel.tag, rel.assetName, urls);
  }

  /** With distinct names, leaving out one source by name leaves out just that one. */
  lemma {:induction false} OthersThanOne(ordered: seq<Source>, k: nat)
    requires k < |ordered| && DistinctNames(ordered)
    ensures OthersThan(ordered, ordered[k].name) == ordered[..k] + ordered[k + 1..]
  {
    var n := |ordered| - 1;
    if k == n {
      OthersThanNone(ordered[..n], ordered[n].name);
    } else {
      OthersThanOne(ordered[..n], k);
      assert ordered[..n][k + 1..] + [ordered[n]] == ordered[k + 1..];
      assert ordered[..n][..k] == ordered[..k];
    }
  }

  lemma {:induction false} OthersThanNone(sources: seq<Source>, name: string)
    requires forall i | 0 <= i < |sources| :: sources[i].name != name
    ensures OthersThan(sources, name) == sources
  {
    if sources != [] {
      OthersThanNone(sources[..|sources| - 1], name);
    }
  }

  /** The chosen source's URL, then every other source's in order, each once. */
  function ReleaseVia(ordered: seq<Source>, k: nat, c: Component, rel: Found): Release
    requires k < |ordered|
  {
    Release(rel.tag, rel.assetName, DownloadURLs([ordered[k]] + ordered[..k] + ordered[k + 1..], c, rel))
  }

  lemma BuiltVia(ordered: seq<Source>, k: nat, c: Component, rel: Found)
    requires k < |ordered| && DistinctNames(ordered)
    ensures [DownloadURL(ordered[k], c, rel)] + DownloadURLs(OthersThan(ordered, ordered[k].name), c, rel)
      == ReleaseVia(ordered, k, c, rel).urls
  {
    var chosen, before, after := ordered[k], ordered[..k], ordered[k + 1..];
    OthersThanOne(ordered, k);
    URLsCons(chosen, before + after, c, rel);
    Regroup([chosen], before, after);
  }

  lemma Regroup(a: seq<Source>, b: seq<Source>, c: seq<Source>)
    ensures a + (b + c) == a + b + c
  {
  }

  lemma URLsCons(first: Source, rest: seq<Source>, c: Component, rel: Found)
    ensures DownloadURLs([first] + rest, c, rel) == [DownloadURL(first, c, rel)] + DownloadURLs(rest, c, rel)
  {
  }

  // ---------------------------------------------------------- fail-over

  predicate IsContentError(e: FindError) {
    e.Lookup?
  }

  predicate GitHubLimited(srcs: seq<Source>, replies: seq<Reply>, i: nat)
    requires i < |srcs| && i < |replies|
  {
    srcs[i].kind == GitHub && replies[i].Err? && replies[i].error == RateLimited
  }

  /** The attempts before k all failed without cancellation. */
  ghost predicate FailedBefore(replies: seq<Reply>, k: nat)
    requires k <= |replies|
  {
    forall i | 0 <= i < k :: replies[i].Err? && !replies[i].cancelled
  }

  ghost predicate FirstContent(replies: seq<Reply>, k: nat) {
    && k < |replies| && replies[k].Err? && IsContentError(replies[k].error)
    && forall i | 0 <= i < k :: !(replies[i].Err? && IsContentError(replies[i].error))
  }

  ghost predicate NoContent(replies: seq<Reply>) {
    forall i | 0 <= i < |replies| :: !(replies[i].Err? && IsContentError(replies[i].error))
  }

  ghost predicate FirstGitHub(srcs: seq<Source>, g: nat) {
    g < |srcs| && srcs[g].kind == GitHub && forall i | 0 <= i < g :: srcs[i].kind != GitHub
  }

  function Tries(srcs: seq<Source>, n: nat, c: Component): (t: seq<Request>)
    requires n <= |srcs|
    ensures |t| == n
    ensures forall i | 0 <= i < n ::
      t[i] == Try(srcs[i], ReleasesURL(srcs[i], c), srcs[i].kind == GitHub && |srcs| > 1)
  {
    seq(n, i requires 0 <= i < n =>
      Try(srcs[i], ReleasesURL(srcs[i], c), srcs[i].kind == GitHub && |srcs| > 1))
  }

  /** The full retry is due: every source failed, GitHub for its rate limit, and
      no source gave a definitive answer. */
  ghost predicate RetryDue(srcs: seq<Source>, replies: seq<Reply>)
    requires |srcs| == |replies|
  {
    NoContent(replies) && exists i | 0 <= i < |srcs| :: GitHubLimited(srcs, replies, i)
  }

  /** The result when every source failed. */
  ghost predicate IsFailure(r: Result, replies: seq<Reply>) {
    if NoContent(replies)
    then r == Failed(if replies == [] then None else if replies[0].Err? then Some(replies[0].error) else None)
    else exists k: nat :: FirstContent(replies, k) && r == Failed(Some(replies[k].error))
  }

  /** Stopped at source k: it succeeded, or the context was cancelled. */
  ghost predicate StopsAt(result: Result, requests: seq<Request>, srcs: seq<Source>, c: Component,
                          replies: seq<Reply>, k: nat)
    requires |srcs| == |replies| && k < |srcs|
  {
    && requests == Tries(srcs, k + 1, c)
    && (replies[k].Ok? ==> result == Resolved(ReleaseVia(srcs, k, c, replies[k].release)))
    && (replies[k].Err? ==> replies[k].cancelled && result == Failed(Some(replies[k].error)))
  }

  /** Every source failed, and the full retry went to the first GitHub source g. */
  ghost predicate RetriedAt(result: Result, requests: seq<Request>, srcs: seq<Source>, c: Component,
                            replies: seq<Reply>, retry: Reply, g: nat)
    requires |srcs| == |replies|
  {
    && FirstGitHub(srcs, g)
    && requests == Tries(srcs, |srcs|, c) + [FullRetry(srcs[g], ReleasesURL(srcs[g], c))]
    && (retry.Ok? ==> result == Resolved(ReleaseVia(srcs, g, c, retry.release)))
    && (retry.Err? ==> IsFailure(result, replies))
  }

  /** What findRelease promises: the first source that does not fail decides; if
      all fail, either the full retry or the error they leave behind does. */
  ghost predicate IsAnswer(result: Result, requests: seq<Request>, srcs: seq<Source>, c: Component,
                           replies: seq<Reply>, retry: Reply)
    requires |srcs| == |replies|
  {
    if FailedBefore(replies, |srcs|) then
      if RetryDue(srcs, replies) then exists g: nat :: RetriedAt(result, requests, srcs, c, replies, retry, g)
      else requests == Tries(srcs, |srcs|, c) && IsFailure(result, replies)
    else
      exists k: nat :: k < |srcs| && FailedBefore(replies, k) && StopsAt(result, requests, srcs, c, replies, k)
  }

  method RetryGitHub(srcs: seq<Source>, c: Component, retry: Reply) returns (r: Option<Release>, requests: seq<Request>)
    requires DistinctNames(srcs)
    ensures (forall i | 0 <= i < |srcs| :: srcs[i].kind != GitHub) ==> r.None? && requests == []
    ensures forall g: nat | FirstGitHub(srcs, g) ::
      && requests == [FullRetry(srcs[g], ReleasesURL(srcs[g], c))]
      && r == if retry.Ok? then Some(ReleaseVia(srcs, g, c, retry.release)) else None
  {
    for i := 0 to |srcs|
      invariant forall j | 0 <= j < i :: srcs[j].kind != GitHub
    {
      if srcs[i].kind != GitHub {
        continue;
      }
      requests := [FullRetry(srcs[i], ReleasesURL(srcs[i], c))];
      if retry.Err? {
        return None, requests;
      }
      BuiltVia(srcs, i, c, retry.release);
      var built := BuildRelease(srcs[i], srcs, c, retry.release);
      return Some(built), requests;
    }
    return None, [];
  }

  /** What the loop remembers of the sources that failed. */
  datatype Memory = Memory(firstErr: Option<FindError>, contentErr: Option<FindError>, limited: bool)

  ghost predicate Remembers(m: Memory, srcs: seq<Source>, replies: seq<Reply>, n: nat)
    requires n <= |srcs| && n <= |replies|
  {
    && m.firstErr == (if n == 0 || replies[0].Ok? then None else Some(replies[0].error))
    && (m.contentErr.None? ==> NoContent(replies[..n]))
    && (m.contentErr.Some? ==> exists k: nat :: FirstContent(replies[..n], k) && m.contentErr.value == replies[k].error)
    && (m.limited <==> exists i | 0 <= i < n :: GitHubLimited(srcs, replies, i))
  }

  function Remember(m: Memory, src: Source, e: FindError): Memory {
    Memory(if m.firstErr.None? then Some(e) else m.firstErr,
           if m.contentErr.None? && IsContentError(e) then Some(e) else m.contentErr,
           m.limited || (src.kind == GitHub && e == RateLimited))
  }

  lemma RememberStep(m: Memory, srcs: seq<Source>, replies: seq<Reply>, n: nat)
    requires n < |srcs| && n < |replies| && replies[n].Err? && FailedBefore(replies, n)
    requires Remembers(m, srcs, replies, n)
    ensures Remembers(Remember(m, srcs[n], replies[n].error), srcs, replies, n + 1)
  {
    var m' := Remember(m, srcs[n], replies[n].error);
    assert forall i | 0 <= i < n :: replies[..n + 1][i] == replies[..n][i];
    if m.contentErr.Some? {
      var k: nat :| FirstContent(replies[..n], k) && m.contentErr.value == replies[k].error;
      assert FirstContent(replies[..n + 1], k);
    } else if IsContentError(replies[n].error) {
      assert FirstContent(replies[..n + 1], n);
    }
    assert GitHubLimited(srcs, replies, n) <==> srcs[n].kind == GitHub && replies[n].error == RateLimited;
  }

  /** The loop over the sources: up to the first that answers. */
  method TryInOrder(srcs: seq<Source>, c: Component, replies: seq<Reply>)
    returns (result: Option<Result>, requests: seq<Request>, m: Memory)
    requires |replies| == |srcs| && DistinctNames(srcs)
    ensures result.Some? ==>
      exists k: nat :: k < |srcs| && FailedBefore(replies, k) && StopsAt(result.value, requests, srcs, c, replies, k)
    ensures result.None? ==>
      FailedBefore(replies, |srcs|) && requests == Tries(srcs, |srcs|, c) && Remembers(m, srcs, replies, |srcs|)
  {
    m := Memory(None, None, false);
    requests := [];
    for i := 0 to |srcs|
      invariant FailedBefore(replies, i) && requests == Tries(srcs, i, c)
      invariant Remembers(m, srcs, replies, i)
    {
      requests := requests + [Try(srcs[i], ReleasesURL(srcs[i], c), srcs[i].kind == GitHub && |srcs| > 1)];
      assert requests == Tries(srcs, i + 1, c);
      if replies[i].Ok? {
        BuiltVia(srcs, i, c, replies[i].release);
        var built := BuildRelease(srcs[i], srcs, c, replies[i].release);
        assert StopsAt(Resolved(built), requests, srcs, c, replies, i);
        return Some(Resolved(built)), requests, m;
      }
      if replies[i].cancelled {
        assert StopsAt(Failed(Some(replies[i].error)), requests, srcs, c, replies, i);
        return Some(Failed(Some(replies[i].error))), requests, m;
      }
      RememberStep(m, srcs, replies, i);
      m := Remember(m, srcs[i], replies[i].error);
    }
    return None, requests, m;
  }

  /** The error that is returned when the memory of all sources is complete. */
  lemma RememberedFailure(m: Memory, srcs: seq<Source>, replies: seq<Reply>)
    requires |srcs| == |replies| && FailedBefore(replies, |srcs|)
    requires Remembers(m, srcs, replies, |srcs|)
    ensures IsFailure(Failed(if m.contentErr.Some? then m.contentErr else m.firstErr), replies)
    ensures (m.limited && m.contentErr.None?) <==> RetryDue(srcs, replies)
  {
    assert replies[..|srcs|] == replies;
  }

  /** `replies` are the answers of the attempts, `retry` that of the full retry. */
  method FindFromSources(srcs: seq<Source>, c: Component, replies: seq<Reply>, retry: Reply)
    returns (result: Result, requests: seq<Request>)
    requires |replies| == |srcs| && DistinctNames(srcs)
    ensures IsAnswer(result, requests, srcs, c, replies, retry)
  {
    var stopped, m;
    stopped, requests, m := TryInOrder(srcs, c, replies);
    if stopped.Some? {
      return stopped.value, requests;
    }
    RememberedFailure(m, srcs, replies);
    ghost var tried := requests;
    if m.limited && m.contentErr.None? {
      ghost var g := HasFirstGitHub(srcs, replies);
      var again, more := RetryGitHub(srcs, c, retry);
      requests := requests + more;
      result := if again.Some? then Resolved(again.value) else Failed(m.firstErr);
      assert RetriedAt(result, requests, srcs, c, replies, retry, g);
      return;
    }
    result := Failed(if m.contentErr.Some? then m.contentErr else m.firstErr);
  }

  lemma HasFirstGitHub(srcs: seq<Source>, replies: seq<Reply>) returns (g: nat)
    requires |srcs| == |replies| && exists i | 0 <= i < |srcs| :: GitHubLimited(srcs, replies, i)
    ensures FirstGitHub(srcs, g)
  {
    g := 0;
    while srcs[g].kind != GitHub
      invariant g < |srcs| && forall i | 0 <= i < g :: srcs[i].kind != GitHub
      decreases |srcs| - g
    {
      var i :| 0 <= i < |srcs| && GitHubLimited(srcs, replies, i);
      g := g + 1;
    }
  }

  // ------------------------------------------------------ the entry point

  predicate IsConfigured(sources: seq<Source>, forced: string) {
    forced == "" || exists i | 0 <= i < |sources| :: sources[i].name == forced
  }

  /** GAMEAPCTL_RELEASE_SOURCE forces one source by name; only without it are the
      sources probed, or the remembered order used. */
  method SourcesForFind(selector: Selector, forced: string, answers: seq<ProbeResult>)
    returns (srcs: Option<seq<Source>>)
    requires selector.Valid() && Answered(selector.sources, answers)
    modifies selector
    ensures selector.Valid() && (srcs.Some? <==> IsConfigured(selector.sources, forced))
    ensures forced == "" ==>
      && selector.once && srcs == Some(selector.ordered)
      && selector.ordered == if old(selector.once) then old(selector.ordered) else Ordered(selector.sources, answers)
    ensures forced != "" ==> selector.once == old(selector.once) && selector.ordered == old(selector.ordered)
    ensures forced != "" ==> selector.probed == old(selector.probed)
    ensures forced != "" && srcs.Some? ==>
      |srcs.value| == 1 && srcs.value[0] in selector.sources && srcs.value[0].name == forced
  {
    if forced == "" {
      var ordered := selector.OrderedSources(answers);
      return Some(ordered);
    }
    var sources := selector.sources;
    for i := 0 to |sources|
      invariant forall j | 0 <= j < i :: sources[j].name != forced
    {
      if sources[i].name == forced {
        return Some([sources[i]]);
      }
    }
    return None;
  }

  /** Ordering the sources keeps their names distinct. */
  lemma OrderedDistinct(sources: seq<Source>, answers: seq<ProbeResult>)
    requires Answered(sources, answers) && DistinctNames(sources)
    ensures DistinctNames(Ordered(sources, answers))
  {
    var order := Ranking(answers);
    forall i, j | 0 <= i < j < |order| ensures sources[order[i]].name != sources[order[j]].name {
      assert order[i] != order[j];
    }
  }

  lemma RememberedDistinct(selector: Selector)
    requires selector.Valid() && selector.once && DistinctNames(selector.sources)
    ensures DistinctNames(selector.ordered)
  {
    OrderedDistinct(selector.sources, selector.probed);
  }

  /** Neither an unknown component nor an unknown forced source. */
  predicate IsKnown(c: Component, sources: seq<Source>, forced: string) {
    !c.UnknownComponent? && IsConfigured(sources, forced)
  }

  /** findRelease. `answers` is what a probe would find, `reply` what a source
      answers; the order is the ranking of the first probe's answers. */
  method Find(selector: Selector, c: Component, forced: string, answers: seq<ProbeResult>,
              reply: Source -> Reply, retry: Reply)
    returns (result: Result, requests: seq<Request>)
    requires selector.Valid() && DistinctNames(selector.sources) && Answered(selector.sources, answers)
    modifies selector
    ensures selector.Valid()
    ensures !IsKnown(c, selector.sources, forced) ==>
      result.Failed? && result.error.Some? && result.error.value.OtherError? && requests == []
    ensures IsKnown(c, selector.sources, forced) && forced == "" ==>
      selector.ordered == if old(selector.once) then old(selector.ordered) else Ordered(selector.sources, answers)
    ensures IsKnown(c, selector.sources, forced) && forced == "" ==>
      IsAnswerOf(selector.ordered, result, requests, c, reply, retry)
    ensures IsKnown(c, selector.sources, forced) && forced != "" ==>
      IsForcedAnswer(result, requests, selector.sources, forced, c, reply, retry)
  {
    var srcs, err := Choose(selector, c, forced, answers);
    if err.Some? {
      return Failed(err), [];
    }
    result, requests := FindFrom(srcs, c, reply, retry);
    if forced != "" {
      ForcedAnswer(result, requests, selector.sources, forced, srcs, c, reply, retry);
    }
  }

  /** The sources to ask; they have distinct names. */
  method Choose(selector: Selector, c: Component, forced: string, answers: seq<ProbeResult>)
    returns (srcs: seq<Source>, err: Option<FindError>)
    requires selector.Valid() && DistinctNames(selector.sources) && Answered(selector.sources, answers)
    modifies selector
    ensures selector.Valid() && (err.None? <==> IsKnown(c, selector.sources, forced))
    ensures err.Some? ==> err.value.OtherError?
    ensures err.None? ==> DistinctNames(srcs)
    ensures err.None? && forced == "" ==>
      && srcs == selector.ordered
      && selector.ordered == if old(selector.once) then old(selector.ordered) else Ordered(selector.sources, answers)
    ensures err.None? && forced != "" ==>
      |srcs| == 1 && srcs[0] in selector.sources && srcs[0].name == forced
  {
    if GitHubReleasesPath(c).None? {
      return [], Some(OtherError("unknown component"));
    }
    srcs, err := DistinctSources(selector, forced, answers);
  }

  method DistinctSources(selector: Selector, forced: string, answers: seq<ProbeResult>)
    returns (srcs: seq<Source>, err: Option<FindError>)
    requires selector.Valid() && DistinctNames(selector.sources) && Answered(selector.sources, answers)
    modifies selector
    ensures selector.Valid() && (err.None? <==> IsConfigured(selector.sources, forced))
    ensures err.Some? ==> err.value.OtherError?
    ensures err.None? ==> DistinctNames(srcs)
    ensures err.None? && forced == "" ==>
      && srcs == selector.ordered
      && selector.ordered == if old(selector.once) then old(selector.ordered) else Ordered(selector.sources, answers)
    ensures err.None? && forced != "" ==>
      |srcs| == 1 && srcs[0] in selector.sources && srcs[0].name == forced
  {
    var chosen := SourcesForFind(selector, forced, answers);
    if chosen.None? {
      return [], Some(OtherError("unknown source"));
    }
    if forced == "" {
      RememberedDistinct(selector);
    }
    return chosen.value, None;
  }

  /** What the chosen sources answer. */
  method FindFrom(srcs: seq<Source>, c: Component, reply: Source -> Reply, retry: Reply)
    returns (result: Result, requests: seq<Request>)
    requires DistinctNames(srcs)
    ensures IsAnswerOf(srcs, result, requests, c, reply, retry)
  {
    result, requests := FindFromSources(srcs, c, Replies(srcs, reply), retry);
  }

  ghost predicate IsAnswerOf(srcs: seq<Source>, result: Result, requests: seq<Request>, c: Component,
                             reply: Source -> Reply, retry: Reply)
  {
    IsAnswer(result, requests, srcs, c, Replies(srcs, reply), retry)
  }

  /** The answer of the one source of that name. */
  ghost predicate IsForcedAnswer(result: Result, requests: seq<Request>, sources: seq<Source>, forced: string,
                                 c: Component, reply: Source -> Reply, retry: Reply)
  {
    exists src | src in sources && src.name == forced :: IsAnswerOf([src], result, requests, c, reply, retry)
  }

  lemma ForcedAnswer(result: Result, requests: seq<Request>, sources: seq<Source>, forced: string,
                     srcs: seq<Source>, c: Component, reply: Source -> Reply, retry: Reply)
    requires |srcs| == 1 && srcs[0] in sources && srcs[0].name == forced
    requires IsAnswerOf(srcs, result, requests, c, reply, retry)
    ensures IsForcedAnswer(result, requests, sources, forced, c, reply, retry)
  {
    assert srcs == [srcs[0]];
  }

  /** The reply of a source that looks a release up. */
  function FromLookup(r: ReleaseLookup.Result): Reply {
    match r
    case Ok(found) => Ok(found)
    case Err(error) => Err(Lookup(error), false)
  }

  /** When all sources fail and one of them has looked the tag up in its list, no
      retry follows, and the error is the one of the first lookup that failed. */
  lemma LookupIsFinal(result: Result, requests: seq<Request>, srcs: seq<Source>, c: Component,
                      replies: seq<Reply>, retry: Reply,
                      i: nat, list: seq<ReleaseLookup.ListedRelease>, os: string, arch: string, tag: string)
    requires |srcs| == |replies| && i < |srcs| && FailedBefore(replies, |srcs|)
    requires IsAnswer(result, requests, srcs, c, replies, retry)
    requires replies[i] == FromLookup(ReleaseLookup.ByTag(list, os, arch, tag))
    ensures requests == Tries(srcs, |srcs|, c)
    ensures exists k: nat :: k <= i && FirstContent(replies, k) && result == Failed(Some(replies[k].error))
  {
    assert IsContentError(replies[i].error);
    var k: nat :| FirstContent(replies, k) && result == Failed(Some(replies[k].error));
    assert k <= i;
  }

  function Replies(srcs: seq<Source>, reply: Source -> Reply): (r: seq<Reply>)
    ensures |r| == |srcs| && forall i | 0 <= i < |srcs| :: r[i] == reply(srcs[i])
  {
    seq(|srcs|, i requires 0 <= i < |srcs| => reply(srcs[i]))
  }

  /** Where GitHub lists the releases of each component, and what it says of an
      asset's place is taken as it is. */
  lemma GitHubURLs(c: Component, rel: Found)
    ensures ReleasesURL(DefaultSources[0], GameAPCtl) == "https://api.github.com" + "/repos/gameap/gameapctl/releases"
    ensures ReleasesURL(DefaultSources[0], Panel) == "https://api.github.com" + "/repos/gameap/gameap/releases"
    ensures ReleasesURL(DefaultSources[0], Daemon) == "https://api.github.com" + "/repos/gameap/daemon/releases"
    ensures DownloadURL(DefaultSources[0], c, rel) == rel.url
  {
  }

  /** Where a built-in mirror lists the releases of each component; the daemon goes
      by another name there. */
  lemma MirrorURLs(i: nat, host: string)
    requires (i == 1 && host == "https://cdn.gameap.com") || (i == 2 && host == "https://cdn.gameap.ru")
    ensures ReleasesURL(DefaultSources[i], GameAPCtl) == host + "/" + "gameapctl" + "/releases.json"
    ensures ReleasesURL(DefaultSources[i], Panel) == host + "/" + "gameap" + "/releases.json"
    ensures ReleasesURL(DefaultSources[i], Daemon) == host + "/" + "gameap-daemon" + "/releases.json"
  {
  }

  /** And where it keeps an asset. */
  lemma MirrorAssets(i: nat, host: string, rel: Found)
    requires (i == 1 && host == "https://cdn.gameap.com") || (i == 2 && host == "https://cdn.gameap.ru")
    ensures DownloadURL(DefaultSources[i], GameAPCtl, rel)
      == host + "/" + "gameapctl" + "/" + rel.tag + "/" + rel.assetName
    ensures DownloadURL(DefaultSources[i], Panel, rel) == host + "/" + "gameap" + "/" + rel.tag + "/" + rel.assetName
    ensures DownloadURL(DefaultSources[i], Daemon, rel)
      == host + "/" + "gameap-daemon" + "/" + rel.tag + "/" + rel.assetName
  {
  }

  /** A rate limit is no answer: when GitHub was limited and all other failures were
      limits or errors without an answer, the full retry goes to GitHub, and its
      failure leaves the first error. */
  lemma LimitIsRetried(result: Result, requests: seq<Request>, srcs: seq<Source>, c: Component,
                       replies: seq<Reply>, retry: Reply, g: nat)
    requires |srcs| == |replies| && IsAnswer(result, requests, srcs, c, replies, retry)
    requires forall i | 0 <= i < |replies| ::
      replies[i].Err? && !replies[i].cancelled && (replies[i].error == RateLimited || replies[i].error.OtherError?)
    requires g < |srcs| && srcs[g].kind == GitHub && replies[g].error == RateLimited
    requires forall i | 0 <= i < g :: srcs[i].kind != GitHub
    ensures requests == Tries(srcs, |srcs|, c) + [FullRetry(srcs[g], ReleasesURL(srcs[g], c))]
    ensures retry.Err? ==> result == Failed(Some(replies[0].error))
    ensures retry.Ok? ==> result.Resolved? && result.release.tag == retry.release.tag
  {
    assert GitHubLimited(srcs, replies, g);
    assert FirstGitHub(srcs, g);
    var h: nat :| RetriedAt(result, requests, srcs, c, replies, retry, h);
    assert FirstGitHub(srcs, h);
  }

  lemma DefaultNamesDistinct()
    ensures DistinctNames(DefaultSources)
  {
    assert "github"[0] != "cdn.gameap.com"[0];
    assert |"cdn.gameap.com"| != |"cdn.gameap.ru"|;
  }

  /** No two sources offer the same URL twice: the list has one URL per source. */
  lemma OneURLPerSource(ordered: seq<Source>, k: nat, c: Component, rel: Found)
    requires k < |ordered|
    ensures |ReleaseVia(ordered, k, c, rel).urls| == |ordered|
    ensures multiset(ReleaseVia(ordered, k, c, rel).urls) == multiset(DownloadURLs(ordered, c, rel))
  {
    var urls := DownloadURLs(ordered, c, rel);
    assert ReleaseVia(ordered, k, c, rel).urls == [urls[k]] + urls[..k] + urls[k + 1..];
    MovedToFront(urls, k);
  }

  lemma MovedToFront(urls: seq<string>, k: nat)
    requires k < |urls|
    ensures multiset([urls[k]] + urls[..k] + urls[k + 1..]) == multiset(urls)
  {
    assert urls == urls[..k] + [urls[k]] + urls[k + 1..];
  }
}
