/** Choosing among release sources: probing, ordering, failing over
    (pkg/releasesource/selector.go, pkg/releasesource/source.go). */
module ReleaseSource {
  import opened Order

  datatype Kind = GitHub | CDN
  datatype Source = Source(name: string, kind: Kind, baseURL: string)

  const DefaultSources: seq<Source> :=
    [Source("github", GitHub, "https://api.github.com"),
     Source("cdn.gameap.com", CDN, "https://cdn.gameap.com"),
     Source("cdn.gameap.ru", CDN, "https://cdn.gameap.ru")]

  predicate DistinctNames(sources: seq<Source>) {
    forall i, j | 0 <= i < j < |sources| :: sources[i].name != sources[j].name
  }

  // -------------------------------------------------- probing and ordering

  datatype ProbeResult = ProbeResult(src: Source, latency: int, available: bool)

  /** Where a source belongs: available ones by latency and then by position,
      the others behind them by position. */
  predicate Precedes(results: seq<ProbeResult>, i: nat, j: nat)
    requires i < |results| && j < |results|
  {
    var a, b := results[i], results[j];
    if a.available && b.available then a.latency < b.latency || (a.latency == b.latency && i < j)
    else if a.available == b.available then i < j
    else a.available
  }

  /** `order` arranges all positions by Precedes. */
  ghost predicate IsRanking(results: seq<ProbeResult>, order: seq<nat>) {
    && Permutation(order, |results|)
    && forall a, b | 0 <= a < b < |order| :: Precedes(results, order[a], order[b])
  }

  /** There is at most one such arrangement. */
  lemma RankingUnique(results: seq<ProbeResult>, p: seq<nat>, q: seq<nat>)
    requires IsRanking(results, p) && IsRanking(results, q)
    ensures p == q
  {
    var less := (i: nat, j: nat) => i < |results| && j < |results| && Precedes(results, i, j);
    forall x: nat ensures x in p <==> x in q {
      PermutationCovers(p, |results|, x);
      PermutationCovers(q, |results|, x);
    }
    SortedUnique(p, q, less);
  }

  function Positions(results: seq<ProbeResult>, available: bool): (r: seq<nat>)
    ensures forall i | 0 <= i < |r| :: r[i] < |results| && results[r[i]].available == available
    ensures forall i, j | 0 <= i < j < |r| :: r[i] < r[j]
    ensures forall i: nat | i < |results| && results[i].available == available :: i in r
  {
    if results == [] then []
    else
      var n := |results| - 1;
      var before := Positions(results[..n], available);
      if results[n].available == available then before + [n] else before
  }

  function Latencies(results: seq<ProbeResult>, at: seq<nat>): (keys: seq<int>)
    requires forall i | 0 <= i < |at| :: at[i] < |results|
    ensures |keys| == |at| && forall i | 0 <= i < |at| :: keys[i] == results[at[i]].latency
  {
    seq(|at|, i requires 0 <= i < |at| => results[at[i]].latency)
  }

  function Pick<T>(s: seq<T>, at: seq<nat>): (r: seq<T>)
    requires forall i | 0 <= i < |at| :: at[i] < |s|
    ensures |r| == |at| && forall i | 0 <= i < |at| :: r[i] == s[at[i]]
  {
    seq(|at|, i requires 0 <= i < |at| => s[at[i]])
  }

  /** The stable sort of the available ones, then the others. */
  function Ranking(results: seq<ProbeResult>): (order: seq<nat>)
    ensures IsRanking(results, order)
  {
    var up, down := Positions(results, true), Positions(results, false);
    var keys := Latencies(results, up);
    var sorted := Pick(up, StableOrder(keys));
    RankingOf(results, up, down, keys, StableOrder(keys));
    sorted + down
  }

  lemma RankingOf(results: seq<ProbeResult>, up: seq<nat>, down: seq<nat>, keys: seq<int>, p: seq<nat>)
    requires up == Positions(results, true) && down == Positions(results, false)
    requires keys == Latencies(results, up) && StablySorted(keys, p)
    ensures IsRanking(results, Pick(up, p) + down)
  {
    var sorted := Pick(up, p);
    var order := sorted + down;
    forall a, b | 0 <= a < b < |order|
      ensures order[a] < |results| && order[b] < |results| && order[a] != order[b]
      ensures Precedes(results, order[a], order[b])
    {
      if b < |sorted| {
        assert Before(keys, p[a], p[b]);
        assert p[a] != p[b];
      }
    }
    PositionsCount(results);
  }

  lemma {:induction false} PositionsCount(results: seq<ProbeResult>)
    ensures |Positions(results, true)| + |Positions(results, false)| == |results|
  {
    if results != [] {
      PositionsCount(results[..|results| - 1]);
    }
  }

  /** The goroutines write results[i] in any order; the slots do not meet. */
  method ProbeAll(sources: seq<Source>, answers: seq<ProbeResult>) returns (results: seq<ProbeResult>)
    requires |answers| == |sources|
    ensures results == answers
  {
    var slots := new ProbeResult[|sources|](i requires 0 <= i < |sources| => ProbeResult(sources[i], 0, false));
    var running: set<nat> := {};
    for i := 0 to |sources|
      invariant forall j: nat :: j in running <==> j < i
    {
      running := running + {i};
    }
    while running != {}
      invariant forall j | j in running :: j < |sources|
      invariant forall j: nat | j < |sources| && j !in running :: slots[j] == answers[j]
    {
      var i :| i in running;
      slots[i] := answers[i];
      running := running - {i};
    }
    results := slots[..];
  }

  lemma PositionsNext(results: seq<ProbeResult>, i: nat, available: bool)
    requires i < |results|
    ensures Positions(results[..i + 1], available) ==
              Positions(results[..i], available) + if results[i].available == available then [i] else []
  {
    assert results[..i + 1][..i] == results[..i];
  }

  lemma PickNext<T>(s: seq<T>, at: seq<nat>, i: nat)
    requires i < |s| && forall k | 0 <= k < |at| :: at[k] < |s|
    ensures Pick(s, at + [i]) == Pick(s, at) + [s[i]]
  {
  }

  /** The loop that separates available and unavailable sources. */
  method Partition(results: seq<ProbeResult>, sources: seq<Source>)
    returns (available: seq<ProbeResult>, unavailable: seq<Source>)
    requires |results| == |sources| && forall i | 0 <= i < |sources| :: results[i].src == sources[i]
    ensures available == Pick(results, Positions(results, true))
    ensures unavailable == Pick(sources, Positions(results, false))
  {
    available, unavailable := [], [];
    ghost var up: seq<nat>, down: seq<nat> := [], [];
    for i := 0 to |results|
      invariant up == Positions(results[..i], true) && available == Pick(results, up)
      invariant down == Positions(results[..i], false) && unavailable == Pick(sources, down)
    {
      PositionsNext(results, i, true);
      PositionsNext(results, i, false);
      var r := results[i];
      if r.available {
        PickNext(results, up, i);
        available := available + [r];
        up := up + [i];
      } else {
        PickNext(sources, down, i);
        unavailable := unavailable + [r.src];
        down := down + [i];
      }
    }
    assert results[..|results|] == results;
  }

  /** slices.SortStableFunc by latency. */
  method SortByLatency(results: seq<ProbeResult>, available: seq<ProbeResult>, ghost up: seq<nat>)
    returns (sorted: seq<ProbeResult>)
    requires (forall i | 0 <= i < |up| :: up[i] < |results|) && available == Pick(results, up)
    ensures sorted == Pick(available, StableOrder(Latencies(results, up)))
  {
    var keys := seq(|available|, i requires 0 <= i < |available| => available[i].latency);
    assert keys == Latencies(results, up);
    sorted := Pick(available, StableOrder(keys));
  }

  method SourcesOf(results: seq<ProbeResult>) returns (srcs: seq<Source>)
    ensures |srcs| == |results| && forall i | 0 <= i < |results| :: srcs[i] == results[i].src
  {
    srcs := [];
    for i := 0 to |results|
      invariant |srcs| == i && forall j | 0 <= j < i :: srcs[j] == results[j].src
    {
      srcs := srcs + [results[i].src];
    }
  }

  lemma PickConcat<T>(s: seq<T>, a: seq<nat>, b: seq<nat>)
    requires forall i | 0 <= i < |a + b| :: (a + b)[i] < |s|
    ensures forall i | 0 <= i < |a| :: a[i] < |s|
    ensures forall i | 0 <= i < |b| :: b[i] < |s|
    ensures Pick(s, a + b) == Pick(s, a) + Pick(s, b)
  {
    assert forall i | 0 <= i < |a| :: a[i] == (a + b)[i];
    assert forall i | 0 <= i < |b| :: b[i] == (a + b)[|a| + i];
  }

  /** probeAndSort: whatever the interleaving, the one ranking of the answers. */
  method ProbeAndSort(sources: seq<Source>, answers: seq<ProbeResult>) returns (ordered: seq<Source>)
    requires |answers| == |sources| && forall i | 0 <= i < |sources| :: answers[i].src == sources[i]
    ensures ordered == Pick(sources, Ranking(answers))
  {
    var results := ProbeAll(sources, answers);
    var available, unavailable := Partition(results, sources);
    ghost var up, down := Positions(results, true), Positions(results, false);
    ghost var p := StableOrder(Latencies(results, up));
    available := SortByLatency(results, available, up);
    RankingOf(results, up, down, Latencies(results, up), p);
    RankingUnique(results, Pick(up, p) + down, Ranking(results));
    ordered := SourcesOf(available);
    PickConcat(sources, Pick(up, p), down);
    assert ordered == Pick(sources, Pick(up, p));
    ordered := ordered + unavailable;
  }

  predicate Answered(sources: seq<Source>, answers: seq<ProbeResult>) {
    |answers| == |sources| && forall i | 0 <= i < |sources| :: answers[i].src == sources[i]
  }

  /** The sources in the order of the ranking of their answers. */
  function Ordered(sources: seq<Source>, answers: seq<ProbeResult>): seq<Source>
    requires Answered(sources, answers)
  {
    Pick(sources, Ranking(answers))
  }

  /** The memoised order: only the first call probes. */
  class Selector {
    const sources: seq<Source>
    var once: bool
    var ordered: seq<Source>
    /** The answers to the one probe. */
    ghost var probed: seq<ProbeResult>

    /** What is remembered is their ranking. */
    ghost predicate Valid()
      reads this
    {
      once ==> Answered(sources, probed) && ordered == Ordered(sources, probed)
    }

    constructor (sources: seq<Source>)
      ensures this.sources == sources && !once && Valid()
    {
      this.sources := sources;
      once, ordered, probed := false, [], [];
    }

    method OrderedSources(answers: seq<ProbeResult>) returns (result: seq<Source>)
      requires Valid() && Answered(sources, answers)
      modifies this
      ensures Valid() && once && ordered == result
      ensures probed == if old(once) then old(probed) else answers
      ensures result == if old(once) then old(ordered) else Ordered(sources, answers)
    {
      if !once {
        ordered := ProbeAndSort(sources, answers);
        once, probed := true, answers;
      }
      return ordered;
    }
  }
}
