/** Transient variables in config.env: appendConfigEnvVar and
    removeConfigEnvVar (internal/actions/panel/install/panel_install_v4.go). */
module EnvVars {
  import opened Text
  import opened EnvFile

  predicate IsStale(line: string, name: string) {
    HasPrefix(TrimSpace(line), name + "=")
  }

  /** Which lines are dropped: those that start with `name=` behind any spaces. */
  lemma StaleSpelled(line: string, name: string)
    requires name == "" || !IsSpace(name[0])
    ensures IsStale(line, name) <==> exists pre, rest :: IsStaleAs(line, name, pre, rest)
  {
    if IsStale(line, name) {
      var pre, post := TrimSplit(line);
      var t := TrimSpace(line);
      assert t == name + "=" + t[|name| + 1..];
      assert IsStaleAs(line, name, pre, t[|name| + 1..] + post);
    }
    if pre, rest :| IsStaleAs(line, name, pre, rest) {
      SpelledIsStale(line, name, pre, rest);
    }
  }

  lemma SpelledIsStale(line: string, name: string, pre: string, rest: string)
    requires name == "" || !IsSpace(name[0])
    requires IsStaleAs(line, name, pre, rest)
    ensures IsStale(line, name)
  {
    var kept := TrimRight(rest);
    var tail := TrimRightSplit(rest);
    var text := name + "=" + kept;
    assert text[|name|] == '=' && text[0] == if name == "" then '=' else name[0];
    assert text[|text| - 1] == if kept == "" then '=' else kept[|kept| - 1];
    assert line == pre + text + tail;
    TrimUnique(pre, text, tail);
  }

  ghost predicate IsStaleAs(line: string, name: string, pre: string, rest: string) {
    AllSpace(pre) && line == pre + name + "=" + rest
  }

  /** Dropping goes line by line. */
  lemma DropLine(line: string, name: string)
    ensures DropStale([line], name) == if IsStale(line, name) then [] else [line]
  {
    assert [line][..0] == [] && DropStale([], name) == [];
    assert [] + [line] == [line];
  }

  /** The lines that do not start with `name=`, in their order. */
  function DropStale(lines: seq<string>, name: string): (kept: seq<string>)
    ensures |kept| <= |lines|
    ensures forall i | 0 <= i < |kept| :: kept[i] in lines && !IsStale(kept[i], name)
  {
    if lines == [] then []
    else
      var last := lines[|lines| - 1];
      var kept := DropStale(lines[..|lines| - 1], name);
      if IsStale(last, name) then kept else kept + [last]
  }

  /** The filter over lines[:0]: the kept lines overwrite the front of the array. */
  method FilterInPlace(lines: array<string>, name: string) returns (n: nat)
    modifies lines
    ensures n <= lines.Length
    ensures lines[..n] == DropStale(old(lines[..]), name)
  {
    ghost var before := lines[..];
    n := 0;
    for i := 0 to lines.Length
      invariant n <= i
      invariant lines[..n] == DropStale(before[..i], name)
      invariant forall j | i <= j < lines.Length :: lines[j] == before[j]
    {
      assert before[..i + 1][..i] == before[..i];
      if !IsStale(lines[i], name) {
        lines[n] := lines[i];
        n := n + 1;
      }
    }
    assert before[..lines.Length] == before;
  }

  function DropVar(content: string, name: string): string {
    Join(DropStale(Split(content, LF), name), LF)
  }

  function Appended(content: string, name: string, value: string): string {
    content + [LF] + Assignment(name, value) + [LF]
  }

  method DropLines(content: string, name: string) returns (kept: string)
    ensures kept == DropVar(content, name)
  {
    var parts := Split(content, LF);
    var lines := new string[|parts|](i requires 0 <= i < |parts| => parts[i]);
    assert lines[..] == parts;
    var n := FilterInPlace(lines, name);
    kept := Join(lines[..n], LF);
  }

  // ------------------------------------------------------ direct writes

  /** os.WriteFile: the file is truncated first, so a write that fails leaves the
      old text if the file could not be opened, and otherwise any part of the new
      text, down to nothing. */
  ghost predicate Overwritten(was: Option<string>, text: string, works: bool, now: Option<string>) {
    if works then now == Some(text) else now == was || (now.Some? && now.value <= text)
  }

  /** A write at the end of the file that fails leaves any part of it. */
  ghost predicate Extended(was: string, text: string, works: bool, now: string) {
    if works then now == was + text else was <= now <= was + text
  }

  /** What the operating system answers to one appendConfigEnvVar. */
  datatype AppendFaults = AppendFaults(readable: bool, rewrites: bool, appends: bool)

  /** The line appendConfigEnvVar writes at the end. */
  function AppendedText(name: string, value: string): string {
    [LF] + Assignment(name, value) + [LF]
  }

  /** A file that can be read loses its stale lines first, and is left there when
      that write fails; then the variable is written at the end. */
  ghost predicate AppendOutcome(was: string, name: string, value: string, faults: AppendFaults, now: string) {
    if faults.readable && !faults.rewrites then Overwritten(Some(was), DropVar(was, name), false, Some(now))
    else Extended(if faults.readable then DropVar(was, name) else was, AppendedText(name, value), faults.appends, now)
  }

  ghost predicate RemoveOutcome(was: string, name: string, readable: bool, rewrites: bool, now: string) {
    if readable then Overwritten(Some(was), DropVar(was, name), rewrites, Some(now)) else now == was
  }

  class ConfigFile {
    var content: Option<string>

    constructor (initial: Option<string>)
      ensures content == initial
    {
      content := initial;
    }

    method WriteDirect(text: string, works: bool)
      modifies this
      ensures Overwritten(old(content), text, works, content)
    {
      if works {
        content := Some(text);
        return;
      }
      var truncated: bool := *;
      if truncated {
        var n: nat :| n <= |text|;
        content := Some(text[..n]);
      }
    }

    method WriteAtEnd(text: string, works: bool)
      requires content.Some?
      modifies this
      ensures content.Some? && Extended(old(content).value, text, works, content.value)
    {
      var n: nat :| n <= |text|;
      content := Some(content.value + if works then text else text[..n]);
    }

    /** Drops stale lines, then appends; a file that cannot be read is appended
        to as it is, and a file that does not exist is not created. */
    method AppendVar(name: string, value: string, faults: AppendFaults) returns (ok: bool)
      modifies this
      ensures old(content).None? ==> !ok && content == None
      ensures old(content).Some? ==>
        && ok == ((faults.readable ==> faults.rewrites) && faults.appends)
        && content.Some? && AppendOutcome(old(content).value, name, value, faults, content.value)
    {
      if content.Some? && faults.readable {
        var kept := DropLines(content.value, name);
        WriteDirect(kept, faults.rewrites);
        if !faults.rewrites {
          return false;
        }
      }
      if content.None? {
        return false;
      }
      WriteAtEnd([LF] + Assignment(name, value) + [LF], faults.appends);
      return faults.appends;
    }

    /** Errors are logged, not returned. */
    method RemoveVar(name: string, readable: bool, rewrites: bool)
      modifies this
      ensures old(content).None? ==> content == None
      ensures old(content).Some? ==>
        content.Some? && RemoveOutcome(old(content).value, name, readable, rewrites, content.value)
    {
      if content.None? || !readable {
        return;
      }
      var kept := DropLines(content.value, name);
      WriteDirect(kept, rewrites);
    }
  }

  // ------------------------------------------------ append, then remove

  lemma {:induction false} DropStaleConcat(a: seq<string>, b: seq<string>, name: string)
    ensures DropStale(a + b, name) == DropStale(a, name) + DropStale(b, name)
  {
    if b == [] {
      assert a + b == a;
    } else {
      assert (a + b)[..|a + b| - 1] == a + b[..|b| - 1];
      DropStaleConcat(a, b[..|b| - 1], name);
    }
  }

  lemma {:induction false} DropStaleFixed(lines: seq<string>, name: string)
    requires forall i | 0 <= i < |lines| :: !IsStale(lines[i], name)
    ensures DropStale(lines, name) == lines
  {
    if lines != [] {
      var n := |lines| - 1;
      DropStaleFixed(lines[..n], name);
      assert lines == lines[..n] + [lines[n]];
    }
  }

  lemma EmptyLineStays(name: string)
    ensures !IsStale("", name)
  {
  }

  /** Splitting the kept lines of a file gives them back, or one empty line. */
  lemma SplitKept(content: string, name: string)
    ensures var kept := DropStale(Split(content, LF), name);
      Split(DropVar(content, name), LF) == if kept == [] then [""] else kept
  {
    var kept := DropStale(Split(content, LF), name);
    if kept == [] {
      SplitAtom("", LF);
    } else {
      SplitJoin(kept, LF);
    }
  }

  /** Dropping the lines of a name twice is dropping them once. */
  lemma DropTwice(content: string, name: string)
    ensures DropStale(Split(DropVar(content, name), LF), name) == Split(DropVar(content, name), LF)
  {
    SplitKept(content, name);
    EmptyLineStays(name);
    DropStaleFixed(Split(DropVar(content, name), LF), name);
  }

  lemma SplitAppended(content: string, name: string, value: string)
    requires LF !in name && LF !in value
    ensures Split(Appended(content, name, value), LF) == Split(content, LF) + [Assignment(name, value), ""]
  {
    var line := Assignment(name, value);
    calc {
      Split(Appended(content, name, value), LF);
      { Rebracket(content, line, [LF]); }
      Split(content + [LF] + (line + [LF]), LF);
      { SplitConcat(content, line + [LF], LF); }
      Split(content, LF) + Split(line + [LF], LF);
      { SplitEnded(line); }
      Split(content, LF) + [line, ""];
    }
  }

  lemma SplitEnded(line: string)
    requires LF !in line
    ensures Split(line + [LF], LF) == [line, ""]
  {
    assert line + [LF] + "" == line + [LF];
    SplitCons(line, "", LF);
    SplitAtom("", LF);
  }

  /** The appended line is recognised as stale unless its name starts with a space. */
  lemma AppendedIsStale(name: string, value: string)
    ensures IsStale(Assignment(name, value), name) <==> name == "" || !IsSpace(name[0])
  {
    var line := Assignment(name, value);
    var pre, post := TrimSplit(line);
    var t := TrimSpace(line);
    assert line[|name|] == '=' && !IsSpace('=');
    if name == "" || !IsSpace(name[0]) {
      assert !IsSpace(line[0]);
      NotAmongSpaces(line, pre, t + post, 0);
      assert line == t + post;
      NotAmongTrailing(line, t, post, |name|);
      assert t[..|name| + 1] == line[..|name| + 1] == name + "=";
    } else {
      assert t == "" || !IsSpace(t[0]);
      assert (name + "=")[0] == name[0];
    }
  }

  /** What removing the variable leaves of the file it was appended to. */
  lemma DropAppended(base: string, name: string, value: string)
    requires LF !in name && LF !in value
    requires DropStale(Split(base, LF), name) == Split(base, LF)
    ensures DropVar(Appended(base, name, value), name) ==
      if IsStale(Assignment(name, value), name) then base + [LF] else Appended(base, name, value)
  {
    var lines, line := Split(base, LF), Assignment(name, value);
    SplitAppended(base, name, value);
    DropFromEnd(lines, line, name);
    JoinSplit(base, LF);
    JoinSplit(Appended(base, name, value), LF);
    JoinAppend(lines, "");
    assert base + [LF] + "" == base + [LF];
  }

  lemma DropFromEnd(lines: seq<string>, line: string, name: string)
    requires DropStale(lines, name) == lines
    ensures DropStale(lines + [line, ""], name) ==
      lines + if IsStale(line, name) then [""] else [line, ""]
  {
    var all := lines + [line, ""];
    EmptyLineStays(name);
    assert all[..|all| - 1] == lines + [line];
    assert (lines + [line])[..|lines|] == lines;
    assert lines + [line] + [""] == all;
  }

  /** Appending a variable and removing it again leaves the old content less its
      stale lines, with one newline more, exactly when the name does not start
      with a space. */
  lemma AppendThenRemove(content: string, name: string, value: string)
    requires LF !in name && LF !in value
    ensures DropVar(Appended(DropVar(content, name), name, value), name) == DropVar(content, name) + [LF]
      <==> name == "" || !IsSpace(name[0])
  {
    var base := DropVar(content, name);
    DropTwice(content, name);
    DropAppended(base, name, value);
    AppendedIsStale(name, value);
    assert |Appended(base, name, value)| > |base + [LF]|;
  }

  lemma {:induction false} JoinAppend(lines: seq<string>, line: string)
    requires lines != []
    ensures Join(lines + [line], LF) == Join(lines, LF) + [LF] + line
  {
    if |lines| > 1 {
      assert (lines + [line])[1..] == lines[1..] + [line];
      JoinAppend(lines[1..], line);
    } else {
      assert (lines + [line])[1..] == [line];
    }
  }
}
