/** The file operations the backup and rollback protocols are made of. Every
    call can fail, and a call that fails, or is caught half-way, can leave what
    it was writing in any state (pkg/utils/fs.go; the os package). */
module FileSystem {

  /** What lies under a path: contents by relative path. A plain file is a tree
      with the one relative path "". */
  type Tree = map<string, string>

  /** Trees by path; no path used here lies inside another. */
  type State = map<string, Tree>

  function File(bytes: string): (t: Tree)
    ensures t.Keys == {""} && t[""] == bytes
  {
    map["" := bytes]
  }

  /** Every entry of `part` is in `whole`. */
  ghost predicate PartOf(part: Tree, whole: Tree) {
    forall k | k in part :: k in whole && whole[k] == part[k]
  }

  ghost predicate Holds(s: State, p: string, t: Tree) {
    p in s && s[p] == t
  }

  ghost predicate HoldsAll(s: State, p: string, t: Tree) {
    p in s && PartOf(t, s[p])
  }

  ghost predicate SameAt(a: State, b: State, p: string) {
    (p in a <==> p in b) && (p in a ==> a[p] == b[p])
  }

  ghost predicate SameExcept(a: State, b: State, touched: set<string>) {
    forall p | p !in touched :: SameAt(a, b, p)
  }

  lemma SameUpdate(a: State, b: State, p: string, t: Tree)
    requires SameExcept(a, b, {p})
    ensures a[p := t] == b[p := t]
  {
    forall q | q != p
      ensures q in a <==> q in b
      ensures q in a ==> a[q] == b[q]
    {
      assert SameAt(a, b, q);
    }
  }

  function At(s: State, p: string): Tree {
    if p in s then s[p] else map[]
  }

  /** What copying t over a tree leaves: a file replaces what was there, the
      files of a directory are laid over it. */
  function Overlay(under: Tree, t: Tree): Tree {
    if t.Keys == {""} then t else under + t
  }

  lemma OverlayHoldsAll(under: Tree, t: Tree)
    ensures PartOf(t, Overlay(under, t))
    ensures PartOf(under, t) ==> Overlay(under, t) == t
  {
  }

  /** What removing p leaves: nothing, or some of what was there. */
  ghost predicate RemovedTo(was: State, p: string, ok: bool, now: State) {
    if ok then now == was - {p}
    else SameExcept(now, was, {p}) && (p in now <==> p in was) && PartOf(At(now, p), At(was, p))
  }

  /** What is done to a path without a change of contents. */
  datatype Mark = Parent(path: string) | Executable(path: string)

  class Disk {
    var trees: State
    /** Every state the disk has been in; the current one is the last. */
    ghost var history: seq<State>
    /** How many calls have failed. */
    ghost var faults: nat
    /** The marks that were set, in order. */
    ghost var marks: seq<Mark>

    ghost predicate Valid()
      reads `trees, `history
    {
      history != [] && history[|history| - 1] == trees
    }

    /** Since the n-th state, nothing outside `touched` has differed from `base`. */
    ghost predicate OnlyTouched(n: nat, base: State, touched: set<string>)
      reads `history
    {
      n <= |history| && forall i | n <= i < |history| :: SameExcept(history[i], base, touched)
    }

    constructor (initial: State)
      ensures Valid() && trees == initial && history == [initial] && faults == 0 && marks == []
    {
      trees := initial;
      history := [initial];
      faults, marks := 0, [];
    }

    method Become(s: State)
      modifies `trees, `history
      ensures trees == s && history == old(history) + [s]
    {
      trees := s;
      history := history + [s];
    }

    /** A call that changes no contents: it works or it fails. */
    method Attempt() returns (ok: bool)
      modifies `faults
      ensures faults == old(faults) + if ok then 0 else 1
    {
      ok := *;
      if !ok {
        faults := faults + 1;
      }
    }

    /** Makes the directory a path is in, or the file executable. */
    method Set(mark: Mark) returns (ok: bool)
      modifies `faults, `marks
      ensures faults == old(faults) + if ok then 0 else 1
      ensures marks == old(marks) + if ok then [mark] else []
    {
      ok := Attempt();
      if ok {
        marks := marks + [mark];
      }
    }

    /** A stat that fails looks like an absent file. */
    method Exists(p: string) returns (found: bool)
      modifies `faults
      ensures found ==> p in trees
      ensures faults == old(faults) + if !found && p in trees then 1 else 0
    {
      found := p in trees;
      if found {
        found := Attempt();
      }
    }

    /** Writing p in any number of steps that leave who knows what. */
    method Scribble(p: string)
      requires Valid()
      modifies `trees, `history
      ensures Valid() && old(history) <= history
      ensures OnlyTouched(|old(history)|, old(trees), {p})
      ensures SameExcept(trees, old(trees), {p})
    {
      var steps: nat :| true;
      for i := 0 to steps
        invariant Valid() && old(history) <= history
        invariant OnlyTouched(|old(history)|, old(trees), {p})
        invariant SameExcept(trees, old(trees), {p})
      {
        var junk: Tree := *;
        Become(trees[p := junk]);
      }
    }

    /** Copies a tree over whatever is at dst. */
    method Copy(src: string, dst: string) returns (ok: bool)
      requires Valid() && src != dst
      modifies `trees, `history, `faults
      ensures Valid() && old(history) <= history
      ensures OnlyTouched(|old(history)|, old(trees), {dst})
      ensures SameExcept(trees, old(trees), {dst})
      ensures ok ==> src in old(trees) && trees == old(trees)[dst := Overlay(At(old(trees), dst), old(trees)[src])]
      ensures faults == old(faults) + if ok then 0 else 1
    {
      if src !in trees {
        faults := faults + 1;
        return false;
      }
      var result := Overlay(At(trees, dst), trees[src]);
      ghost var before := trees;
      Scribble(dst);
      ok := Attempt();
      if ok {
        SameUpdate(trees, before, dst, result);
        Become(trees[dst := result]);
      }
    }

    /** Removes a tree, piece by piece. */
    method RemoveAll(p: string) returns (ok: bool)
      requires Valid()
      modifies `trees, `history, `faults
      ensures Valid() && old(history) <= history
      ensures OnlyTouched(|old(history)|, old(trees), {p})
      ensures forall i | |old(history)| <= i < |history| :: PartOf(At(history[i], p), At(old(trees), p))
      ensures RemovedTo(old(trees), p, ok, trees)
      ensures faults == old(faults) + if ok then 0 else 1
    {
      ghost var before := trees;
      var steps: nat :| true;
      for i := 0 to steps
        invariant Valid() && old(history) <= history
        invariant faults == old(faults)
        invariant OnlyTouched(|old(history)|, before, {p})
        invariant RemovedTo(before, p, false, trees)
        invariant forall i | |old(history)| <= i < |history| :: PartOf(At(history[i], p), At(before, p))
      {
        var gone: set<string> := *;
        if p in trees {
          Become(trees[p := trees[p] - gone]);
        }
      }
      ok := Attempt();
      if ok {
        Become(trees - {p});
        assert trees == before - {p};
      }
    }

    /** Removes one file, or not; an absent file is no error. */
    method Remove(p: string) returns (ok: bool)
      requires Valid()
      modifies `trees, `history, `faults
      ensures Valid() && old(history) <= history
      ensures OnlyTouched(|old(history)|, old(trees), {p})
      ensures ok ==> trees == old(trees) - {p}
      ensures !ok ==> trees == old(trees) && history == old(history)
      ensures faults == old(faults) + if ok then 0 else 1
    {
      ok := Attempt();
      if ok {
        Become(trees - {p});
      }
    }

    /** One atomic step. */
    method Rename(src: string, dst: string) returns (ok: bool)
      requires Valid() && src != dst
      modifies `trees, `history, `faults
      ensures Valid()
      ensures ok ==> src in old(trees)
      ensures ok ==> trees == (old(trees) - {src})[dst := old(trees)[src]] && history == old(history) + [trees]
      ensures !ok ==> trees == old(trees) && history == old(history)
      ensures faults == old(faults) + if ok then 0 else 1
    {
      if src !in trees {
        faults := faults + 1;
        return false;
      }
      ok := Attempt();
      if !ok {
        return;
      }
      Become((trees - {src})[dst := trees[src]]);
    }

    /** Truncates and writes a file. */
    method WriteFile(p: string, bytes: string) returns (ok: bool)
      requires Valid()
      modifies `trees, `history, `faults
      ensures Valid() && old(history) <= history
      ensures OnlyTouched(|old(history)|, old(trees), {p})
      ensures ok ==> trees == old(trees)[p := File(bytes)]
      ensures faults == old(faults) + if ok then 0 else 1
    {
      ghost var before := trees;
      Scribble(p);
      ok := Attempt();
      if ok {
        SameUpdate(trees, before, p, File(bytes));
        Become(trees[p := File(bytes)]);
      }
    }

    /** Something else at work: any number of changes away from `kept`. */
    method Elsewhere(kept: set<string>)
      requires Valid()
      modifies `trees, `history
      ensures Valid() && old(history) <= history
      ensures forall i | |old(history)| <= i < |history| :: forall p | p in kept :: SameAt(history[i], old(trees), p)
      ensures forall p | p in kept :: SameAt(trees, old(trees), p)
    {
      ghost var before := trees;
      var steps: nat :| true;
      for i := 0 to steps
        invariant Valid() && old(history) <= history
        invariant forall p | p in kept :: SameAt(trees, before, p)
        invariant forall i | |old(history)| <= i < |history| :: forall p | p in kept :: SameAt(history[i], before, p)
      {
        var p: string := *;
        var junk: Tree := *;
        if p !in kept {
          Become(trees[p := junk]);
        }
      }
    }
  }

  // ---------------------------------------------------------------- Move

  /** How a move can go. */
  datatype MoveResult =
    | NotTried          // no source, or no directory to move it to
    | Renamed
    | RenameFailed
    | CopyFailed
    | CopiedNotRemoved
    | CopiedAndRemoved

  predicate Moved(r: MoveResult) {
    r == Renamed || r == CopiedAndRemoved
  }

  ghost predicate MovedTo(was: State, src: string, dst: string, r: MoveResult, now: State) {
    match r
    case NotTried => now == was
    case RenameFailed => now == was
    case Renamed => src in was && now == (was - {src})[dst := was[src]]
    case CopyFailed => SameExcept(now, was, {dst})
    case CopiedNotRemoved =>
      src in was && RemovedTo(was[dst := Overlay(At(was, dst), was[src])], src, false, now)
    case CopiedAndRemoved =>
      src in was && now == was[dst := Overlay(At(was, dst), was[src])] - {src}
  }

  /** At every moment of a move the whole tree is at one of the two places. */
  ghost predicate AtEither(s: State, src: string, dst: string, t: Tree) {
    Holds(s, src, t) || HoldsAll(s, dst, t)
  }

  /** moveCrossDevice: copy, then remove. */
  method MoveCrossDevice(disk: Disk, src: string, dst: string) returns (r: MoveResult)
    requires disk.Valid() && src != dst
    modifies disk`trees, disk`history, disk`faults
    ensures disk.Valid() && old(disk.history) <= disk.history
    ensures disk.OnlyTouched(|old(disk.history)|, old(disk.trees), {src, dst})
    ensures src in old(disk.trees) ==>
      forall i | |old(disk.history)| <= i < |disk.history| ::
        AtEither(disk.history[i], src, dst, old(disk.trees)[src])
    ensures r in {CopyFailed, CopiedNotRemoved, CopiedAndRemoved}
    ensures MovedTo(old(disk.trees), src, dst, r, disk.trees)
    ensures disk.faults == old(disk.faults) + if Moved(r) then 0 else 1
  {
    ghost var before := disk.trees;
    var ok := disk.Copy(src, dst);
    ghost var n := |disk.history|;
    assert forall i | |old(disk.history)| <= i < n :: SameAt(disk.history[i], before, src);
    if !ok {
      return CopyFailed;
    }
    ghost var copied := disk.trees;
    ok := disk.RemoveAll(src);
    assert forall i | n <= i < |disk.history| :: SameAt(disk.history[i], copied, dst);
    return if ok then CopiedAndRemoved else CopiedNotRemoved;
  }

  method Move(disk: Disk, src: string, dst: string) returns (r: MoveResult)
    requires disk.Valid() && src != dst
    modifies disk
    ensures disk.Valid() && old(disk.history) <= disk.history
    ensures disk.OnlyTouched(|old(disk.history)|, old(disk.trees), {src, dst})
    ensures src in old(disk.trees) ==>
      forall i | |old(disk.history)| <= i < |disk.history| ::
        AtEither(disk.history[i], src, dst, old(disk.trees)[src])
    ensures MovedTo(old(disk.trees), src, dst, r, disk.trees)
    // into a directory that was made; it is done unless a call fails or there is nothing to move
    ensures disk.marks == old(disk.marks) + if r == NotTried then [] else [Parent(dst)]
    ensures disk.faults >= old(disk.faults)
    ensures Moved(r) || disk.faults > old(disk.faults) || (r == NotTried && src !in old(disk.trees))
  {
    var found := disk.Exists(src);
    if !found {
      return NotTried;
    }
    var directory := disk.Set(Parent(dst));
    if !directory {
      return NotTried;
    }
    var windows: bool := *;
    if windows {
      r := MoveCrossDevice(disk, src, dst);
      return;
    }
    var ok := disk.Rename(src, dst);
    if ok {
      return Renamed;
    }
    var crossDevice: bool := *;
    if crossDevice {
      r := MoveCrossDevice(disk, src, dst);
      return;
    }
    return RenameFailed;
  }
}
