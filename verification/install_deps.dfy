/** The recursive installation of Windows packages: a package's dependencies
    are installed before it, one after the other, and the first failure ends
    everything. Only a package that names itself as a dependency is refused;
    longer cycles are the caller's to avoid.
    (pkg/package_manager/windows.go) */
module InstallDeps {
  import Order

  datatype Package = Package(dependencies: seq<string>)

  /** What installing one package did to the machine. */
  datatype Event = Installed(pack: string) | Failed(pack: string)

  // -------------------------------------------------------- dependencies

  ghost predicate DependsOn(packages: map<string, Package>, p: string, d: string) {
    p in packages && d in packages[p].dependencies
  }

  /** Installing p goes on to install d: a package that depends on itself is
      refused before any of its dependencies is looked at. */
  ghost predicate Calls(packages: map<string, Package>, p: string, d: string) {
    DependsOn(packages, p, d) && !DependsOn(packages, p, p)
  }

  /** A chain of dependencies: each package depends on the one after it. */
  ghost predicate Chain(packages: map<string, Package>, s: seq<string>) {
    s != [] && forall i | 0 <= i < |s| - 1 :: DependsOn(packages, s[i], s[i + 1])
  }

  /** The packages whose installation is under way, outermost first. */
  ghost predicate CallStack(packages: map<string, Package>, s: seq<string>) {
    s != [] && forall i | 0 <= i < |s| - 1 :: Calls(packages, s[i], s[i + 1])
  }

  ghost predicate Distinct(s: seq<string>) {
    forall i, j | 0 <= i < j < |s| :: s[i] != s[j]
  }

  /** No package is reached a second time from within its own installation. */
  ghost predicate NoCycleFrom(packages: map<string, Package>, root: string) {
    forall s | CallStack(packages, s) && s[0] == root :: Distinct(s)
  }

  // --------------------------------------------------------------- trace

  /** What was done from position lo on: only known packages that do not
      depend on themselves are installed, and only when each of their known
      dependencies has been installed since lo. */
  ghost predicate Ordered(packages: map<string, Package>, events: seq<Event>, lo: nat) {
    forall i | lo <= i < |events| :: DependenciesFirst(packages, events, lo, i)
  }

  ghost predicate DependenciesFirst(packages: map<string, Package>, events: seq<Event>, lo: nat, i: nat)
    requires i < |events|
  {
    && events[i].pack in packages
    && !DependsOn(packages, events[i].pack, events[i].pack)
    && forall d | DependsOn(packages, events[i].pack, d) && d in packages :: InstalledIn(events, lo, i, d)
  }

  ghost predicate InstalledIn(events: seq<Event>, lo: nat, hi: nat, d: string)
    requires hi <= |events|
  {
    exists j :: lo <= j < hi && events[j] == Installed(d)
  }

  /** Only the last thing done can be a failure. */
  ghost predicate StopsAtFailure(events: seq<Event>, lo: nat) {
    forall i | lo <= i < |events| - 1 :: events[i].Installed?
  }

  ghost predicate AllInstalled(events: seq<Event>, lo: nat) {
    forall i | lo <= i < |events| :: events[i].Installed?
  }

  /** Every package that was touched is the root or one of its dependencies,
      at any depth. */
  ghost predicate OnlyNeeded(packages: map<string, Package>, root: string, events: seq<Event>, lo: nat) {
    forall i | lo <= i < |events| :: Needs(packages, root, events[i].pack)
  }

  ghost predicate Needs(packages: map<string, Package>, root: string, d: string) {
    exists s :: ChainTo(packages, root, s, d)
  }

  ghost predicate ChainTo(packages: map<string, Package>, root: string, s: seq<string>, d: string) {
    Chain(packages, s) && s[0] == root && s[|s| - 1] == d
  }

  /** Some package that installing the root needs depends on itself. */
  ghost predicate NeedsSelfDependent(packages: map<string, Package>, root: string) {
    exists q :: Needs(packages, root, q) && DependsOn(packages, q, q)
  }

  lemma NeedsItself(packages: map<string, Package>, root: string)
    ensures Needs(packages, root, root)
  {
    assert ChainTo(packages, root, [root], root);
  }

  lemma NeedsThrough(packages: map<string, Package>, root: string, dep: string, d: string)
    requires DependsOn(packages, root, dep) && Needs(packages, dep, d)
    ensures Needs(packages, root, d)
  {
    var s :| ChainTo(packages, dep, s, d);
    assert ChainTo(packages, root, [root] + s, d);
  }

  class WindowsPackageManager {
    const packages: map<string, Package>
    /** Every installation tried so far, in order. */
    ghost var events: seq<Event>

    constructor (packages: map<string, Package>)
      ensures this.packages == packages && events == []
    {
      this.packages := packages;
      events := [];
    }

    /** Downloads, unpacks and configures one package, which may fail. */
    method InstallPackage(pack: string) returns (ok: bool)
      modifies this
      ensures events == old(events) + [if ok then Installed(pack) else Failed(pack)]
    {
      ok := *;
      events := events + [if ok then Installed(pack) else Failed(pack)];
    }

    /** Install, called with the given packages already being installed. */
    method Install(pack: string, ghost stack: seq<string>) returns (ok: bool)
      requires CallStack(packages, stack) && stack[|stack| - 1] == pack
      requires NoCycleFrom(packages, stack[0])
      modifies this
      ensures old(events) <= events
      ensures Ordered(packages, events, |old(events)|)
      ensures StopsAtFailure(events, |old(events)|)
      ensures OnlyNeeded(packages, pack, events, |old(events)|)
      ensures ok ==> AllInstalled(events, |old(events)|)
      ensures ok && pack in packages ==> old(events) < events && events[|events| - 1] == Installed(pack)
      ensures !ok && AllInstalled(events, |old(events)|) ==> NeedsSelfDependent(packages, pack)
      ensures pack !in packages ==> ok && events == old(events)
      decreases packages.Keys - Elements(stack[..|stack| - 1]), 1
    {
      ghost var lo := |events|;
      NeedsItself(packages, pack);
      var done := InstallDependencies(pack, stack);
      if !done {
        return false;
      }
      if pack !in packages {
        return true;
      }
      ghost var before := events;
      ok := InstallPackage(pack);
      OrderedExtend(packages, before, lo, events[|events| - 1]);
    }

    /** installDependencies */
    method InstallDependencies(pack: string, ghost stack: seq<string>) returns (ok: bool)
      requires CallStack(packages, stack) && stack[|stack| - 1] == pack
      requires NoCycleFrom(packages, stack[0])
      modifies this
      ensures old(events) <= events
      ensures Ordered(packages, events, |old(events)|)
      ensures StopsAtFailure(events, |old(events)|)
      ensures OnlyNeeded(packages, pack, events, |old(events)|)
      ensures ok ==> AllInstalled(events, |old(events)|)
      ensures ok && pack in packages ==> !DependsOn(packages, pack, pack)
      ensures ok ==> forall d | DependsOn(packages, pack, d) && d in packages ::
                InstalledIn(events, |old(events)|, |events|, d)
      ensures !ok && AllInstalled(events, |old(events)|) ==> NeedsSelfDependent(packages, pack)
      ensures pack !in packages ==> ok && events == old(events)
      decreases packages.Keys - Elements(stack[..|stack| - 1]), 0
    {
      ghost var start := events;
      if pack !in packages {
        return true;
      }
      var dependencies := packages[pack].dependencies;
      NeedsItself(packages, pack);
      for i := 0 to |dependencies|
        invariant pack !in dependencies[..i]
      {
        if dependencies[i] == pack {
          return false;
        }
      }
      StackGrows(packages, stack);
      for i := 0 to |dependencies|
        invariant start <= events
        invariant Ordered(packages, events, |start|)
        invariant AllInstalled(events, |start|)
        invariant OnlyNeeded(packages, pack, events, |start|)
        invariant forall k | 0 <= k < i && dependencies[k] in packages ::
                    InstalledIn(events, |start|, |events|, dependencies[k])
      {
        ghost var before := events;
        var dep := dependencies[i];
        assert Calls(packages, pack, dep);
        ok := Install(dep, stack + [dep]);
        OrderedJoin(packages, before, events, |start|);
        NeededJoin(packages, pack, dep, before, events, |start|);
        if !ok {
          if AllInstalled(events, |start|) {
            var q :| Needs(packages, dep, q) && DependsOn(packages, q, q);
            NeedsThrough(packages, pack, dep, q);
          }
          return false;
        }
        InstalledStays(before, events, |start|);
      }
      ok := true;
    }
  }

  ghost function Elements(s: seq<string>): set<string> {
    set x | x in s
  }

  /** The package being installed is not among the ones that wait for it, so
      one package fewer is left with every level of the recursion. */
  lemma StackGrows(packages: map<string, Package>, stack: seq<string>)
    requires CallStack(packages, stack) && NoCycleFrom(packages, stack[0])
    requires stack[|stack| - 1] in packages
    ensures packages.Keys - Elements(stack) < packages.Keys - Elements(stack[..|stack| - 1])
    ensures forall d :: (stack + [d])[..|stack + [d]| - 1] == stack
  {
    var last := stack[|stack| - 1];
    assert Distinct(stack);
    assert last in packages.Keys - Elements(stack[..|stack| - 1]);
    assert last in Elements(stack);
  }

  // --------------------------------------------------- growing the trace

  lemma OrderedExtend(packages: map<string, Package>, events: seq<Event>, lo: nat, e: Event)
    requires lo <= |events| && Ordered(packages, events, lo)
    requires e.pack in packages && !DependsOn(packages, e.pack, e.pack)
    requires forall d | DependsOn(packages, e.pack, d) && d in packages :: InstalledIn(events, lo, |events|, d)
    ensures Ordered(packages, events + [e], lo)
  {
    var next := events + [e];
    forall i | lo <= i < |next| ensures DependenciesFirst(packages, next, lo, i) {
      assert i < |events| ==> DependenciesFirst(packages, events, lo, i);
      InstalledStays(events[..i], next[..i], lo);
      forall d | DependsOn(packages, next[i].pack, d) && d in packages ensures InstalledIn(next, lo, i, d) {
        assert InstalledIn(events, lo, i, d);
        var j :| lo <= j < i && events[j] == Installed(d);
        assert next[j] == Installed(d);
      }
    }
  }

  lemma OrderedJoin(packages: map<string, Package>, before: seq<Event>, events: seq<Event>, lo: nat)
    requires lo <= |before| && before <= events
    requires Ordered(packages, before, lo) && Ordered(packages, events, |before|)
    ensures Ordered(packages, events, lo)
  {
    forall i | lo <= i < |events| ensures DependenciesFirst(packages, events, lo, i) {
      var from := if i < |before| then lo else |before|;
      assert DependenciesFirst(packages, if i < |before| then before else events, from, i);
      forall d | DependsOn(packages, events[i].pack, d) && d in packages ensures InstalledIn(events, lo, i, d) {
        assert InstalledIn(if i < |before| then before else events, from, i, d);
        var j :| from <= j < i && (if i < |before| then before else events)[j] == Installed(d);
        assert events[j] == Installed(d);
      }
    }
  }

  lemma NeededJoin(packages: map<string, Package>, pack: string, dep: string,
                   before: seq<Event>, events: seq<Event>, lo: nat)
    requires lo <= |before| && before <= events && DependsOn(packages, pack, dep)
    requires OnlyNeeded(packages, pack, before, lo) && OnlyNeeded(packages, dep, events, |before|)
    ensures OnlyNeeded(packages, pack, events, lo)
  {
    forall i | lo <= i < |events| ensures Needs(packages, pack, events[i].pack) {
      if i < |before| {
        assert Needs(packages, pack, before[i].pack);
      } else {
        NeedsThrough(packages, pack, dep, events[i].pack);
      }
    }
  }

  lemma InstalledStays(before: seq<Event>, events: seq<Event>, lo: nat)
    requires before <= events
    ensures forall d | InstalledIn(before, lo, |before|, d) :: InstalledIn(events, lo, |events|, d)
  {
    forall d | InstalledIn(before, lo, |before|, d) ensures InstalledIn(events, lo, |events|, d) {
      var j :| lo <= j < |before| && before[j] == Installed(d);
      assert events[j] == Installed(d);
    }
  }

  // ------------------------------------------------ what the trace means

  /** However deep a known dependency lies, it has been installed before each
      attempt at the package that needs it. */
  lemma {:induction false} DeepDependenciesFirst(
    packages: map<string, Package>, events: seq<Event>, lo: nat, i: nat, s: seq<string>)
    requires Ordered(packages, events, lo) && lo <= i < |events|
    requires Chain(packages, s) && |s| >= 2 && s[0] == events[i].pack && s[|s| - 1] in packages
    ensures InstalledIn(events, lo, i, s[|s| - 1])
    decreases |s|
  {
    assert DependenciesFirst(packages, events, lo, i);
    assert DependsOn(packages, s[0], s[1]);
    assert s[1] in packages by {
      if |s| > 2 { assert DependsOn(packages, s[1], s[2]); }
    }
    assert InstalledIn(events, lo, i, s[1]);
    var j :| lo <= j < i && events[j] == Installed(s[1]);
    if |s| > 2 {
      DeepDependenciesFirst(packages, events, lo, j, s[1..]);
      var k :| lo <= k < j && events[k] == Installed(s[|s| - 1]);
    }
  }

  /** A package on a dependency cycle of any length is never attempted. */
  lemma {:induction false} CycleNeverAttempted(
    packages: map<string, Package>, events: seq<Event>, lo: nat, i: nat, s: seq<string>)
    requires Ordered(packages, events, lo) && lo <= i < |events|
    requires Chain(packages, s) && |s| >= 2 && s[|s| - 1] == s[0]
    ensures events[i].pack != s[0]
    decreases i
  {
    if events[i].pack == s[0] {
      assert DependsOn(packages, s[0], s[1]);
      DeepDependenciesFirst(packages, events, lo, i, s);
      var j :| lo <= j < i && events[j] == Installed(s[0]);
      CycleNeverAttempted(packages, events, lo, j, s);
    }
  }

  /** Once a package is in, so is every known package it needs, and none of
      them depends on itself. */
  lemma InstalledWithAllItNeeds(packages: map<string, Package>, events: seq<Event>, lo: nat, p: string, d: string)
    requires Ordered(packages, events, lo) && InstalledIn(events, lo, |events|, p)
    requires Needs(packages, p, d) && d in packages
    ensures InstalledIn(events, lo, |events|, d) && !DependsOn(packages, d, d)
  {
    var s :| ChainTo(packages, p, s, d);
    var i :| lo <= i < |events| && events[i] == Installed(p);
    var k := i;
    if |s| >= 2 {
      DeepDependenciesFirst(packages, events, lo, i, s);
      k :| lo <= k < i && events[k] == Installed(d);
    }
    assert DependenciesFirst(packages, events, lo, k);
  }

  // --------------------------------------------------------- termination

  /** The recursion is bounded exactly when no cycle is reached: without one
      no call stack is longer than the number of packages and one, with one
      there are call stacks of every length. */
  lemma BoundedIffNoCycle(packages: map<string, Package>, root: string)
    ensures NoCycleFrom(packages, root) <==>
            forall s | CallStack(packages, s) && s[0] == root :: |s| <= |packages| + 1
  {
    if NoCycleFrom(packages, root) {
      forall s | CallStack(packages, s) && s[0] == root ensures |s| <= |packages| + 1 {
        var known := s[..|s| - 1];
        forall x | x in known ensures x in packages {
          var i :| 0 <= i < |known| && known[i] == x;
          assert Calls(packages, s[i], s[i + 1]);
        }
        ElementsCount(known);
        Order.SubsetSize(Elements(known), packages.Keys);
        assert |packages.Keys| == |packages|;
      }
    } else {
      var s :| CallStack(packages, s) && s[0] == root && !Distinct(s);
      var i, j :| 0 <= i < j < |s| && s[i] == s[j];
      var t := Pumped(packages, s, i, j, |packages| + 2);
      assert CallStack(packages, t) && t[0] == root;
    }
  }

  /** Going round a cycle often enough makes a call stack of any length. */
  lemma {:induction false} Pumped(packages: map<string, Package>, s: seq<string>, i: nat, j: nat, n: nat)
    returns (t: seq<string>)
    requires CallStack(packages, s) && i < j < |s| && s[i] == s[j]
    ensures CallStack(packages, t) && t[0] == s[0] && t[|t| - 1] == s[i] && |t| >= n
  {
    if n == 0 {
      t := s[..i + 1];
    } else {
      var u := Pumped(packages, s, i, j, n - 1);
      t := u + s[i + 1..j + 1];
      forall k | 0 <= k < |t| - 1 ensures Calls(packages, t[k], t[k + 1]) {
        if k < |u| - 1 {
          assert Calls(packages, u[k], u[k + 1]);
        } else {
          var m := i + (k - (|u| - 1));
          assert Calls(packages, s[m], s[m + 1]);
        }
      }
    }
  }

  lemma {:induction false} ElementsCount(s: seq<string>)
    requires Distinct(s)
    ensures |Elements(s)| == |s|
  {
    if s != [] {
      ElementsCount(s[1..]);
      assert Elements(s) == {s[0]} + Elements(s[1..]);
    }
  }

  /** Two packages that depend on each other pass the self-dependency check
      and still never stop. */
  lemma MutualDependencyNotRefused()
    ensures var packages := map["php" := Package(["vc"]), "vc" := Package(["php"])];
      && (forall p | p in packages :: !DependsOn(packages, p, p))
      && !NoCycleFrom(packages, "php")
  {
    var packages := map["php" := Package(["vc"]), "vc" := Package(["php"])];
    var s := ["php", "vc", "php"];
    assert CallStack(packages, s);
    assert s[0] == s[2];
  }
}
