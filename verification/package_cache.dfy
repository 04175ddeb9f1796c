/** LoadPackages with its double-checked cache, called by any number of
    goroutines (pkg/package_manager/pkgconfig/config.go). */
module PackageCache {
  import opened Text
  import opened PackageConfig

  /** Where a caller is. The load and its publication happen under the write
      lock; the lock is given up with the last step. */
  datatype Pc =
    | Start
    | Reading                         // read lock held
    | Missed                          // read lock given up after a miss
    | Writing                         // write lock held
    | Publishing(packages: Packages)  // write lock held, load done
    | Done(result: Option<Packages>)

  datatype Caller = Caller(request: Request, pc: Pc)

  datatype System = System(
    cache: map<string, Packages>,
    readers: set<nat>, writer: Option<nat>,
    callers: seq<Caller>,
    loads: seq<string>)               // the key of each successful load, in order

  function Key(s: System, t: nat): string
    requires t < |s.callers|
  {
    BuildCacheKey(s.callers[t].request)
  }

  function At(s: System, t: nat, pc: Pc): System
    requires t < |s.callers|
  {
    s.(callers := s.callers[t := s.callers[t].(pc := pc)])
  }

  predicate Enabled(s: System, t: nat)
    requires t < |s.callers|
  {
    match s.callers[t].pc
    case Start => s.writer == None
    case Missed => s.writer == None && s.readers == {}
    case Done(_) => false
    case _ => true
  }

  /** What the next step of caller t makes of the system. */
  function After(e: Embedded, s: System, t: nat): System
    requires t < |s.callers| && Enabled(s, t)
  {
    var key := Key(s, t);
    match s.callers[t].pc
    case Start => At(s, t, Reading).(readers := s.readers + {t})
    case Reading => At(s, t, if key in s.cache then Done(Some(s.cache[key])) else Missed).(readers := s.readers - {t})
    case Missed => At(s, t, Writing).(writer := Some(t))
    case Writing =>
      if key in s.cache then At(s, t, Done(Some(s.cache[key]))).(writer := None)
      else (
        match FreshLoad(e, s.callers[t].request)
        case None => At(s, t, Done(None)).(writer := None)
        case Some(packages) => At(s, t, Publishing(packages)).(loads := s.loads + [key])
      )
    case Publishing(packages) =>
      At(s, t, Done(Some(packages))).(cache := s.cache[key := packages], writer := None)
  }

  /** One step of caller t. */
  predicate Step(e: Embedded, s: System, s': System, t: nat) {
    t < |s.callers| && Enabled(s, t) && s' == After(e, s, t)
  }

  predicate Init(s: System) {
    && s.cache == map[] && s.readers == {} && s.writer == None && s.loads == []
    && forall t | 0 <= t < |s.callers| :: s.callers[t].pc == Start
  }

  ghost predicate IsRun(e: Embedded, run: seq<System>) {
    && run != [] && Init(run[0])
    && forall i | 0 < i < |run| :: AnyStep(e, run[i - 1], run[i])
  }

  ghost predicate AnyStep(e: Embedded, s: System, s': System) {
    exists t :: Step(e, s, s', t)
  }

  // ------------------------------------------------------ at most one load

  ghost predicate ReadersOk(s: System) {
    forall t: nat :: t in s.readers <==> t < |s.callers| && s.callers[t].pc == Reading
  }

  predicate HoldsWriteLock(pc: Pc) {
    pc == Writing || pc.Publishing?
  }

  ghost predicate WriterOk(s: System) {
    forall t: nat :: s.writer == Some(t) <==> t < |s.callers| && HoldsWriteLock(s.callers[t].pc)
  }

  ghost predicate Locks(s: System) {
    ReadersOk(s) && WriterOk(s) && (s.writer != None ==> s.readers == {})
  }

  /** What is about to be published is a fresh load, and new. */
  ghost predicate PublishesFresh(e: Embedded, s: System, t: nat)
    requires t < |s.callers|
  {
    s.callers[t].pc.Publishing? ==>
      FreshLoad(e, s.callers[t].request) == Some(s.callers[t].pc.packages) && Key(s, t) !in s.cache
  }

  ghost predicate IsPublishing(s: System, k: string) {
    exists t | 0 <= t < |s.callers| :: s.callers[t].pc.Publishing? && Key(s, t) == k
  }

  ghost predicate NoKeyTwice(loads: seq<string>) {
    forall a, b | 0 <= a < b < |loads| :: loads[a] != loads[b]
  }

  ghost predicate LoadsOk(s: System) {
    && NoKeyTwice(s.loads)
    && (forall k :: k in s.loads <==> k in s.cache || IsPublishing(s, k))
  }

  ghost predicate Inv(e: Embedded, s: System) {
    && Locks(s) && LoadsOk(s)
    && forall t | 0 <= t < |s.callers| :: PublishesFresh(e, s, t)
  }

  lemma OthersStay(e: Embedded, s: System, s': System, t: nat)
    requires Step(e, s, s', t)
    ensures |s'.callers| == |s.callers| && s'.callers[t].request == s.callers[t].request
    ensures forall u | 0 <= u < |s.callers| && u != t :: s'.callers[u] == s.callers[u]
  {
  }

  lemma StepKeepsLocks(e: Embedded, s: System, s': System, t: nat)
    requires Locks(s) && Step(e, s, s', t)
    ensures Locks(s')
  {
    OthersStay(e, s, s', t);
    StepKeepsReaders(e, s, s', t);
    StepKeepsWriter(e, s, s', t);
  }

  lemma StepKeepsReaders(e: Embedded, s: System, s': System, t: nat)
    requires Locks(s) && Step(e, s, s', t)
    ensures ReadersOk(s')
  {
    OthersStay(e, s, s', t);
    assert s.callers[t].pc == Reading <==> t in s.readers;
  }

  lemma StepKeepsWriter(e: Embedded, s: System, s': System, t: nat)
    requires Locks(s) && Step(e, s, s', t)
    ensures WriterOk(s')
  {
    OthersStay(e, s, s', t);
    assert s.writer == Some(t) <==> HoldsWriteLock(s.callers[t].pc);
    forall u: nat | u != t ensures s'.writer == Some(u) <==> u < |s'.callers| && HoldsWriteLock(s'.callers[u].pc) {
      assert s.writer == Some(u) <==> u < |s.callers| && HoldsWriteLock(s.callers[u].pc);
    }
  }

  lemma StepKeepsPublishing(e: Embedded, s: System, s': System, t: nat)
    requires Inv(e, s) && Step(e, s, s', t)
    ensures forall u | 0 <= u < |s'.callers| :: PublishesFresh(e, s', u)
  {
    OthersStay(e, s, s', t);
    assert PublishesFresh(e, s, t);
    forall u: nat | u < |s'.callers| && u != t ensures PublishesFresh(e, s', u) {
      assert PublishesFresh(e, s, u);
      assert s.callers[u].pc.Publishing? ==> s.writer == Some(u);
    }
  }

  /** While the write lock is held, only its holder can take a step; so only the
      caller that takes the step can be publishing, before it or after it. */
  lemma OnlyStepperPublishes(e: Embedded, s: System, s': System, t: nat, k: string)
    requires Locks(s) && Step(e, s, s', t) && Locks(s')
    ensures IsPublishing(s, k) <==> s.callers[t].pc.Publishing? && Key(s, t) == k
    ensures IsPublishing(s', k) <==> s'.callers[t].pc.Publishing? && Key(s, t) == k
  {
    assert s.writer.None? || s.writer == Some(t);
    assert s'.writer.None? || s'.writer == Some(t);
    assert forall u: nat | u < |s.callers| && s.callers[u].pc.Publishing? :: s.writer == Some(u);
    assert forall u: nat | u < |s'.callers| && s'.callers[u].pc.Publishing? :: s'.writer == Some(u);
    assert Key(s', t) == Key(s, t);
  }

  lemma StepKeepsLoads(e: Embedded, s: System, s': System, t: nat)
    requires Inv(e, s) && Step(e, s, s', t) && Locks(s')
    ensures LoadsOk(s')
  {
    forall k ensures k in s'.loads <==> k in s'.cache || IsPublishing(s', k) {
      OnlyStepperPublishes(e, s, s', t, k);
    }
    OnlyStepperPublishes(e, s, s', t, Key(s, t));
  }

  lemma {:induction false} RunKeepsInv(e: Embedded, run: seq<System>, i: nat)
    requires IsRun(e, run) && i < |run|
    ensures Inv(e, run[i])
  {
    if i == 0 {
      assert forall k :: !IsPublishing(run[0], k);
    } else {
      RunKeepsInv(e, run, i - 1);
      assert AnyStep(e, run[i - 1], run[i]);
      var t :| Step(e, run[i - 1], run[i], t);
      StepKeepsLocks(e, run[i - 1], run[i], t);
      StepKeepsPublishing(e, run[i - 1], run[i], t);
      StepKeepsLoads(e, run[i - 1], run[i], t);
    }
  }

  /** However the callers interleave, each key is loaded at most once. */
  lemma LoadedOnce(e: Embedded, run: seq<System>, i: nat)
    requires IsRun(e, run) && i < |run|
    ensures NoKeyTwice(run[i].loads)
    ensures run[i].cache.Keys <= set k | k in run[i].loads
  {
    RunKeepsInv(e, run, i);
  }

  // -------------------------------------------------------- fresh results

  /** Requests that share a key load the same packages. */
  ghost predicate Agree(e: Embedded, q: Request, r: Request) {
    BuildCacheKey(q) == BuildCacheKey(r) ==> FreshLoad(e, q) == FreshLoad(e, r)
  }

  ghost predicate NoClash(e: Embedded, s: System) {
    forall t, u | 0 <= t < |s.callers| && 0 <= u < |s.callers| ::
      Agree(e, s.callers[t].request, s.callers[u].request)
  }

  /** Components without an underscore make sure of that. */
  lemma UnderscoreFreeNoClash(e: Embedded, s: System)
    requires forall t | 0 <= t < |s.callers| :: UnderscoreFree(s.callers[t].request)
    ensures NoClash(e, s)
  {
    forall t, u | 0 <= t < |s.callers| && 0 <= u < |s.callers|
      ensures Agree(e, s.callers[t].request, s.callers[u].request)
    {
      KeyInjective(s.callers[t].request, s.callers[u].request);
    }
  }

  ghost predicate ReturnedFresh(e: Embedded, c: Caller) {
    c.pc.Done? ==> c.pc.result == FreshLoad(e, c.request)
  }

  /** The entry under a request's key, if there is one, is what it would load. */
  ghost predicate EntryFresh(e: Embedded, cache: map<string, Packages>, r: Request) {
    BuildCacheKey(r) in cache ==> FreshLoad(e, r) == Some(cache[BuildCacheKey(r)])
  }

  ghost predicate Fresh(e: Embedded, s: System) {
    && (forall t | 0 <= t < |s.callers| :: EntryFresh(e, s.cache, s.callers[t].request))
    && (forall t | 0 <= t < |s.callers| :: ReturnedFresh(e, s.callers[t]))
  }

  lemma StepKeepsNoClash(e: Embedded, s: System, s': System, t: nat)
    requires NoClash(e, s) && Step(e, s, s', t)
    ensures NoClash(e, s')
  {
    OthersStay(e, s, s', t);
    assert forall u | 0 <= u < |s.callers| :: s'.callers[u].request == s.callers[u].request;
  }

  lemma CacheAfter(e: Embedded, s: System, s': System, t: nat)
    requires Step(e, s, s', t)
    ensures s'.cache ==
      if s.callers[t].pc.Publishing? then s.cache[Key(s, t) := s.callers[t].pc.packages] else s.cache
  {
  }

  lemma PublishedFresh(e: Embedded, cache: map<string, Packages>, q: Request, packages: Packages, r: Request)
    requires EntryFresh(e, cache, r) && Agree(e, r, q) && FreshLoad(e, q) == Some(packages)
    ensures EntryFresh(e, cache[BuildCacheKey(q) := packages], r)
  {
  }

  lemma StepKeepsEntries(e: Embedded, s: System, s': System, t: nat, u: nat)
    requires Step(e, s, s', t) && PublishesFresh(e, s, t)
    requires u < |s.callers| && Agree(e, s.callers[u].request, s.callers[t].request)
    requires EntryFresh(e, s.cache, s.callers[u].request)
    ensures EntryFresh(e, s'.cache, s.callers[u].request)
  {
    CacheAfter(e, s, s', t);
    var c := s.callers[t];
    if c.pc.Publishing? {
      PublishedFresh(e, s.cache, c.request, c.pc.packages, s.callers[u].request);
    }
  }

  lemma StepKeepsResults(e: Embedded, s: System, s': System, t: nat, u: nat)
    requires Step(e, s, s', t) && PublishesFresh(e, s, t)
    requires u < |s.callers| && ReturnedFresh(e, s.callers[u])
    requires EntryFresh(e, s.cache, s.callers[t].request)
    ensures u < |s'.callers| && ReturnedFresh(e, s'.callers[u])
  {
    OthersStay(e, s, s', t);
    if u == t {
      StepperReturns(e, s, s', t);
    }
  }

  lemma StepperReturns(e: Embedded, s: System, s': System, t: nat)
    requires Step(e, s, s', t) && PublishesFresh(e, s, t)
    requires EntryFresh(e, s.cache, s.callers[t].request)
    ensures ReturnedFresh(e, s'.callers[t])
  {
  }

  lemma StepKeepsFresh(e: Embedded, s: System, s': System, t: nat)
    requires Step(e, s, s', t) && PublishesFresh(e, s, t) && NoClash(e, s) && Fresh(e, s)
    ensures Fresh(e, s')
  {
    OthersStay(e, s, s', t);
    forall u: nat | u < |s.callers|
      ensures EntryFresh(e, s'.cache, s'.callers[u].request) && ReturnedFresh(e, s'.callers[u])
    {
      assert s'.callers[u].request == s.callers[u].request;
      StepKeepsEntries(e, s, s', t, u);
      StepKeepsResults(e, s, s', t, u);
    }
  }

  lemma AnyStepKeepsFresh(e: Embedded, s: System, s': System)
    requires Inv(e, s) && AnyStep(e, s, s') && NoClash(e, s) && Fresh(e, s)
    ensures NoClash(e, s') && Fresh(e, s')
  {
    var t :| Step(e, s, s', t);
    assert PublishesFresh(e, s, t);
    StepKeepsNoClash(e, s, s', t);
    StepKeepsFresh(e, s, s', t);
  }

  lemma StartsFresh(e: Embedded, s: System)
    requires Init(s)
    ensures Fresh(e, s)
  {
  }

  lemma {:induction false} RunKeepsFresh(e: Embedded, run: seq<System>, i: nat)
    requires IsRun(e, run) && NoClash(e, run[0]) && i < |run|
    ensures NoClash(e, run[i]) && Fresh(e, run[i])
  {
    if i == 0 {
      StartsFresh(e, run[0]);
    } else {
      RunKeepsFresh(e, run, i - 1);
      RunKeepsInv(e, run, i - 1);
      AnyStepKeepsFresh(e, run[i - 1], run[i]);
    }
  }

  ghost predicate AlwaysFresh(e: Embedded, run: seq<System>) {
    forall s: System, c | s in run && c in s.callers :: ReturnedFresh(e, c)
  }

  /** Every call on every run returns what a fresh load would, exactly when no
      two callers share a key but not its packages. */
  lemma CacheIsTransparent(e: Embedded, start: System)
    requires Init(start)
    ensures NoClash(e, start) <==> forall run | IsRun(e, run) && run[0] == start :: AlwaysFresh(e, run)
  {
    if NoClash(e, start) {
      forall run | IsRun(e, run) && run[0] == start ensures AlwaysFresh(e, run) {
        forall s: System, c | s in run && c in s.callers ensures ReturnedFresh(e, c) {
          var i: nat :| i < |run| && run[i] == s;
          RunKeepsFresh(e, run, i);
        }
      }
    } else {
      var t, u :| 0 <= t < |start.callers| && 0 <= u < |start.callers|
        && !Agree(e, start.callers[t].request, start.callers[u].request);
      if FreshLoad(e, start.callers[t].request).Some? {
        var run := ClashShows(e, start, t, u);
      } else {
        var run := ClashShows(e, start, u, t);
      }
    }
  }

  predicate Idle(s: System) {
    s.readers == {} && s.writer == None
  }

  /** A caller that nobody disturbs and that misses loads and publishes. */
  lemma LoadsAlone(e: Embedded, s: System, t: nat) returns (run: seq<System>)
    requires Init(s) && t < |s.callers| && FreshLoad(e, s.callers[t].request).Some?
    ensures IsRun(e, run) && run[0] == s
    ensures var last := run[|run| - 1];
      && Idle(last) && last.cache == map[Key(s, t) := FreshLoad(e, s.callers[t].request).value]
      && |last.callers| == |s.callers|
      && forall u | 0 <= u < |s.callers| && u != t :: last.callers[u] == s.callers[u]
  {
    var s1 := After(e, s, t);
    var s2 := After(e, s1, t);
    var s3 := After(e, s2, t);
    var s4 := After(e, s3, t);
    var s5 := After(e, s4, t);
    assert Step(e, s, s1, t) && Step(e, s1, s2, t) && Step(e, s2, s3, t) && Step(e, s3, s4, t) && Step(e, s4, s5, t);
    run := [s, s1, s2, s3, s4, s5];
  }

  /** A caller that nobody disturbs and that finds an entry returns it. */
  lemma HitsEntry(e: Embedded, s: System, u: nat) returns (s1: System, s2: System)
    requires Idle(s) && u < |s.callers| && s.callers[u].pc == Start && Key(s, u) in s.cache
    ensures AnyStep(e, s, s1) && AnyStep(e, s1, s2)
    ensures |s2.callers| == |s.callers|
    ensures s2.callers[u] == Caller(s.callers[u].request, Done(Some(s.cache[Key(s, u)])))
  {
    s1 := After(e, s, u);
    s2 := After(e, s1, u);
    assert Step(e, s, s1, u) && Step(e, s1, s2, u);
  }

  /** The second of two callers that clash is given the first one's packages. */
  lemma ClashShows(e: Embedded, s: System, t: nat, u: nat) returns (run: seq<System>)
    requires Init(s) && t < |s.callers| && u < |s.callers|
    requires FreshLoad(e, s.callers[t].request).Some? && !Agree(e, s.callers[t].request, s.callers[u].request)
    ensures IsRun(e, run) && run[0] == s && !AlwaysFresh(e, run)
    ensures var last := run[|run| - 1];
      u < |last.callers| && last.callers[u] == Caller(s.callers[u].request, Done(FreshLoad(e, s.callers[t].request)))
  {
    var loaded := LoadsAlone(e, s, t);
    var s6, s7 := HitsEntry(e, loaded[|loaded| - 1], u);
    run := loaded + [s6, s7];
    forall i | 0 < i < |run| ensures AnyStep(e, run[i - 1], run[i]) {
      if i < |loaded| {
        assert AnyStep(e, loaded[i - 1], loaded[i]);
      }
    }
    assert s7 in run && s7.callers[u] in s7.callers;
    assert !ReturnedFresh(e, s7.callers[u]);
  }

  // ---------------------------------------------------------- no deadlock

  /** As long as a caller has not returned, some caller can take a step. */
  lemma NeverStuck(e: Embedded, run: seq<System>, i: nat, t: nat) returns (u: nat)
    requires IsRun(e, run) && i < |run|
    requires t < |run[i].callers| && !run[i].callers[t].pc.Done?
    ensures u < |run[i].callers| && Enabled(run[i], u)
  {
    var s := run[i];
    RunKeepsInv(e, run, i);
    if s.writer.Some? {
      u := s.writer.value;
    } else if s.readers != {} {
      u :| u in s.readers;
    } else {
      u := t;
    }
  }

  // -------------------------------------------- one caller, step by step

  /** The global map, as one caller sees it. Between giving up the read lock and
      getting the write lock, other callers may finish loads of their own. */
  class Cache {
    var entries: map<string, Packages>
    /** The key of every load that was published, in order. */
    ghost var loads: seq<string>

    constructor ()
      ensures entries == map[] && loads == []
    {
      entries, loads := map[], [];
    }

    /** Entries belong to the requests that may be made, and are fresh; each was
        loaded once. */
    ghost predicate Valid(e: Embedded, asked: set<Request>)
      reads this
    {
      && (forall q, r | q in asked && r in asked :: Agree(e, q, r))
      && (forall r | r in asked :: EntryFresh(e, entries, r))
      && NoKeyTwice(loads) && (forall k :: k in loads <==> k in entries)
    }

    method Publish(e: Embedded, asked: set<Request>, r: Request, packages: Packages)
      requires Valid(e, asked) && r in asked && FreshLoad(e, r) == Some(packages)
      requires BuildCacheKey(r) !in entries
      modifies this
      ensures Valid(e, asked) && entries == old(entries)[BuildCacheKey(r) := packages]
      ensures loads == old(loads) + [BuildCacheKey(r)]
    {
      loads := loads + [BuildCacheKey(r)];
      assert forall q | q in asked :: Agree(e, q, r) && EntryFresh(e, entries, q);
      entries := entries[BuildCacheKey(r) := packages];
    }

    method OthersRun(e: Embedded, asked: set<Request>)
      requires Valid(e, asked)
      modifies this
      ensures Valid(e, asked) && old(entries).Keys <= entries.Keys && old(loads) <= loads
    {
      var steps: nat :| true;
      for i := 0 to steps
        invariant Valid(e, asked) && old(entries).Keys <= entries.Keys && old(loads) <= loads
      {
        if asked != {} {
          var other :| other in asked;
          if BuildCacheKey(other) in entries {
            continue;
          }
          var loaded := LoadFiles(e, other);
          if loaded.Some? {
            Publish(e, asked, other, loaded.value);
          }
        }
      }
    }

    method LoadPackages(e: Embedded, asked: set<Request>, r: Request) returns (result: Option<Packages>)
      requires Valid(e, asked) && r in asked
      modifies this
      ensures Valid(e, asked) && result == FreshLoad(e, r)
      ensures old(entries).Keys <= entries.Keys && (result.Some? ==> BuildCacheKey(r) in entries)
      ensures BuildCacheKey(r) in old(entries) ==> entries == old(entries) && loads == old(loads)
      ensures old(loads) <= loads
    {
      var key := BuildCacheKey(r);
      if key in entries {
        return Some(entries[key]);
      }
      OthersRun(e, asked);
      if key in entries {
        return Some(entries[key]);
      }
      result := LoadFiles(e, r);
      if result.Some? {
        Publish(e, asked, r, result.value);
      }
    }
  }
}
