/** Strings as sequences of code points: the parts of Go's strings and bufio
    packages that the installer's line editors are written in. */
module Text {

  datatype Option<+T> = None | Some(value: T)

  const LF: char := '\n'
  const CR: char := '\r'

  /** unicode.IsSpace. */
  predicate IsSpace(c: char) {
    || '\t' <= c <= '\r'
    || c == ' '
    || c in {'\U{0085}', '\U{00A0}', '\U{1680}', '\U{2028}', '\U{2029}', '\U{202F}', '\U{205F}', '\U{3000}'}
    || '\U{2000}' <= c <= '\U{200A}'
  }

  ghost predicate AllSpace(s: string) {
    forall i | 0 <= i < |s| :: IsSpace(s[i])
  }

  /** No space at either end. */
  predicate Trimmed(s: string) {
    s == "" || (!IsSpace(s[0]) && !IsSpace(s[|s| - 1]))
  }

  // ------------------------------------------------------------- trimming

  function TrimLeft(s: string): string {
    if s != "" && IsSpace(s[0]) then TrimLeft(s[1..]) else s
  }

  function TrimRight(s: string): string {
    if s != "" && IsSpace(s[|s| - 1]) then TrimRight(s[..|s| - 1]) else s
  }

  /** strings.TrimSpace. */
  function TrimSpace(s: string): string {
    TrimRight(TrimLeft(s))
  }

  lemma {:induction false} TrimLeftSplit(s: string) returns (pre: string)
    ensures AllSpace(pre) && s == pre + TrimLeft(s)
    ensures TrimLeft(s) == "" || !IsSpace(TrimLeft(s)[0])
  {
    if s != "" && IsSpace(s[0]) {
      var rest := TrimLeftSplit(s[1..]);
      pre := [s[0]] + rest;
    } else {
      pre := "";
    }
  }

  lemma {:induction false} TrimRightSplit(s: string) returns (post: string)
    ensures AllSpace(post) && s == TrimRight(s) + post
    ensures TrimRight(s) == "" || !IsSpace(TrimRight(s)[|TrimRight(s)| - 1])
  {
    if s != "" && IsSpace(s[|s| - 1]) {
      var rest := TrimRightSplit(s[..|s| - 1]);
      post := rest + [s[|s| - 1]];
    } else {
      post := "";
    }
  }

  /** TrimSpace removes spaces at the two ends and nothing else. */
  lemma TrimSplit(s: string) returns (pre: string, post: string)
    ensures AllSpace(pre) && AllSpace(post)
    ensures s == pre + TrimSpace(s) + post
    ensures Trimmed(TrimSpace(s))
  {
    pre := TrimLeftSplit(s);
    post := TrimRightSplit(TrimLeft(s));
  }

  lemma {:induction false} TrimLeftUnique(pre: string, t: string)
    requires AllSpace(pre)
    ensures TrimLeft(pre + t) == TrimLeft(t)
  {
    if pre == "" {
      assert pre + t == t;
    } else {
      assert (pre + t)[1..] == pre[1..] + t;
      TrimLeftUnique(pre[1..], t);
    }
  }

  lemma {:induction false} TrimRightUnique(t: string, post: string)
    requires AllSpace(post)
    ensures TrimRight(t + post) == TrimRight(t)
  {
    if post == "" {
      assert t + post == t;
    } else {
      assert (t + post)[..|t + post| - 1] == t + post[..|post| - 1];
      TrimRightUnique(t, post[..|post| - 1]);
    }
  }

  /** Whatever spaces surround a trimmed text, trimming recovers the text. */
  lemma TrimUnique(pre: string, t: string, post: string)
    requires AllSpace(pre) && AllSpace(post) && Trimmed(t)
    ensures TrimSpace(pre + t + post) == t
  {
    assert pre + t + post == pre + (t + post);
    TrimLeftUnique(pre, t + post);
    if t == "" {
      assert t + post == post == post + "";
      TrimLeftUnique(post, "");
    } else {
      assert TrimLeft(t + post) == t + post;
      TrimRightUnique(t, post);
    }
  }

  lemma TrimOfTrimmed(t: string)
    requires Trimmed(t)
    ensures TrimSpace(t) == t
  {
    assert "" + t + "" == t;
    TrimUnique("", t, "");
  }

  /** Spaces put around a text do not change its trimmed form. */
  lemma TrimIgnoresEnds(pre: string, s: string, post: string)
    requires AllSpace(pre) && AllSpace(post)
    ensures TrimSpace(pre + s + post) == TrimSpace(s)
  {
    var a, b := TrimSplit(s);
    assert pre + s + post == (pre + a) + TrimSpace(s) + (b + post);
    TrimUnique(pre + a, TrimSpace(s), b + post);
  }

  lemma TrimKeepsChars(s: string, c: char)
    requires c !in s
    ensures c !in TrimSpace(s)
  {
    var _, _ := TrimSplit(s);
  }

  lemma NotAmongSpaces(s: string, pre: string, rest: string, k: nat)
    requires s == pre + rest && AllSpace(pre) && k < |s| && !IsSpace(s[k])
    ensures |pre| <= k
  {
    assert forall j | 0 <= j < |pre| :: s[j] == pre[j];
  }

  lemma NotAmongTrailing(s: string, front: string, post: string, k: nat)
    requires s == front + post && AllSpace(post) && k < |s| && !IsSpace(s[k])
    ensures k < |front|
  {
    assert forall j | |front| <= j < |s| :: s[j] == post[j - |front|];
  }

  // ------------------------------------------------ searching and cutting

  predicate HasPrefix(s: string, prefix: string) {
    prefix <= s
  }

  /** Offset of the first c in s, or |s|. */
  function IndexOf(s: string, c: char): (i: nat)
    ensures i <= |s|
    ensures i < |s| ==> s[i] == c
    ensures c !in s[..i]
    ensures i == |s| <==> c !in s
  {
    if s == "" then 0
    else if s[0] == c then 0
    else
      var i := IndexOf(s[1..], c);
      assert s[..1 + i] == [s[0]] + s[1..][..i];
      assert s == [s[0]] + s[1..];
      1 + i
  }

  lemma {:induction false} IndexOfConcat(a: string, c: char, b: string)
    requires c !in a
    ensures IndexOf(a + [c] + b, c) == |a|
  {
    if a != "" {
      assert (a + [c] + b)[1..] == a[1..] + [c] + b;
      IndexOfConcat(a[1..], c, b);
    }
  }

  predicate OccursAt(s: string, sub: string, k: nat) {
    k + |sub| <= |s| && s[k..k + |sub|] == sub
  }

  /** strings.Contains. */
  predicate Contains(s: string, sub: string) {
    exists k: nat | k <= |s| :: OccursAt(s, sub, k)
  }

  // --------------------------------------------------- lines: split, join

  predicate Without(lines: seq<string>, c: char) {
    forall i | 0 <= i < |lines| :: c !in lines[i]
  }

  /** strings.Split for a one-character separator. */
  function Split(s: string, sep: char): (parts: seq<string>)
    ensures |parts| > 0
    ensures Without(parts, sep)
    decreases |s|
  {
    var i := IndexOf(s, sep);
    if i == |s| then [s] else [s[..i]] + Split(s[i + 1..], sep)
  }

  /** strings.Join. */
  function Join(parts: seq<string>, sep: char): string {
    if |parts| == 0 then ""
    else if |parts| == 1 then parts[0]
    else parts[0] + [sep] + Join(parts[1..], sep)
  }

  lemma SplitCons(a: string, rest: string, sep: char)
    requires sep !in a
    ensures Split(a + [sep] + rest, sep) == [a] + Split(rest, sep)
  {
    IndexOfConcat(a, sep, rest);
    var s := a + [sep] + rest;
    assert s[..|a|] == a && s[|a| + 1..] == rest;
  }

  lemma SplitAtom(a: string, sep: char)
    requires sep !in a
    ensures Split(a, sep) == [a]
  {
  }

  /** Splitting a joined list of separator-free parts gives the parts back. */
  lemma {:induction false} SplitJoin(parts: seq<string>, sep: char)
    requires |parts| > 0 && Without(parts, sep)
    ensures Split(Join(parts, sep), sep) == parts
  {
    if |parts| == 1 {
      SplitAtom(parts[0], sep);
    } else {
      SplitJoin(parts[1..], sep);
      SplitCons(parts[0], Join(parts[1..], sep), sep);
    }
  }

  lemma JoinCons(first: string, rest: seq<string>, sep: char)
    requires rest != []
    ensures Join([first] + rest, sep) == first + [sep] + Join(rest, sep)
  {
    assert ([first] + rest)[1..] == rest;
  }

  lemma CutAt(s: string, i: nat)
    requires i < |s|
    ensures s == s[..i] + [s[i]] + s[i + 1..]
  {
  }

  lemma SplitAt(s: string, sep: char)
    ensures var i := IndexOf(s, sep);
      Split(s, sep) == if i == |s| then [s] else [s[..i]] + Split(s[i + 1..], sep)
  {
  }

  /** Joining the split of a text gives the text back. */
  lemma {:induction false} JoinSplit(s: string, sep: char)
    ensures Join(Split(s, sep), sep) == s
    decreases |s|
  {
    var i := IndexOf(s, sep);
    SplitAt(s, sep);
    if i < |s| {
      JoinSplit(s[i + 1..], sep);
      JoinCons(s[..i], Split(s[i + 1..], sep), sep);
      CutAt(s, i);
    }
  }

  lemma Reassociate(head: string, rest: string, b: string, sep: char)
    ensures (head + [sep] + rest) + [sep] + b == head + [sep] + (rest + [sep] + b)
  {
  }

  /** A separator between two texts separates their parts. */
  lemma {:induction false} SplitConcat(a: string, b: string, sep: char)
    ensures Split(a + [sep] + b, sep) == Split(a, sep) + Split(b, sep)
    decreases |a|
  {
    var i := IndexOf(a, sep);
    SplitAt(a, sep);
    if i == |a| {
      SplitCons(a, b, sep);
    } else {
      var head, rest := a[..i], a[i + 1..];
      CutAt(a, i);
      Reassociate(head, rest, b, sep);
      SplitCons(head, rest + [sep] + b, sep);
      SplitConcat(rest, b, sep);
      Regroup([head], Split(rest, sep), Split(b, sep));
    }
  }

  lemma Regroup(a: seq<string>, b: seq<string>, c: seq<string>)
    ensures a + (b + c) == a + b + c
  {
  }

  /** The newline-terminated form of a list of lines. */
  function Terminated(lines: seq<string>): string {
    if |lines| == 0 then "" else lines[0] + [LF] + Terminated(lines[1..])
  }

  lemma {:induction false} TerminatedAppend(lines: seq<string>, line: string)
    ensures Terminated(lines + [line]) == Terminated(lines) + line + [LF]
  {
    if |lines| == 0 {
      assert lines + [line] == [line];
      assert Terminated([line]) == line + [LF] + Terminated([]);
    } else {
      assert (lines + [line])[1..] == lines[1..] + [line];
      TerminatedAppend(lines[1..], line);
    }
  }

  lemma Rebracket(head: string, rest: string, last: string)
    ensures (head + [LF] + rest) + last == head + [LF] + (rest + last)
  {
  }

  /** Any text is newline-terminated lines and what follows the last newline. */
  lemma {:induction false} SplitText(lines: seq<string>, last: string)
    requires Without(lines, LF) && LF !in last
    ensures Split(Terminated(lines) + last, LF) == lines + [last]
  {
    if lines == [] {
      assert Terminated([]) + last == last;
      SplitAtom(last, LF);
      assert [] + [last] == [last];
    } else {
      var head, rest := lines[0], lines[1..];
      calc {
        Split(Terminated(lines) + last, LF);
        { Rebracket(head, Terminated(rest), last); }
        Split(head + [LF] + (Terminated(rest) + last), LF);
        { SplitCons(head, Terminated(rest) + last, LF); }
        [head] + Split(Terminated(rest) + last, LF);
        { SplitText(rest, last); }
        [head] + (rest + [last]);
        { assert lines == [head] + rest; Regroup([head], rest, [last]); }
        lines + [last];
      }
    }
  }

  lemma {:induction false} SplitTerminated(lines: seq<string>)
    requires Without(lines, LF)
    ensures Split(Terminated(lines), LF) == lines + [""]
  {
    if |lines| > 0 {
      var rest := lines[1..];
      calc {
        Split(Terminated(lines), LF);
        { SplitCons(lines[0], Terminated(rest), LF); }
        [lines[0]] + Split(Terminated(rest), LF);
        { SplitTerminated(rest); }
        [lines[0]] + (rest + [""]);
        lines + [""];
      }
    }
  }

  /** bufio.ScanLines drops one carriage return before the end of each line. */
  function DropCR(line: string): string {
    if line != "" && line[|line| - 1] == CR then line[..|line| - 1] else line
  }

  lemma DropCRTrim(line: string)
    ensures TrimSpace(DropCR(line)) == TrimSpace(line)
  {
    if line != "" && line[|line| - 1] == CR {
      var body := line[..|line| - 1];
      assert "" + body + [CR] == line;
      TrimIgnoresEnds("", body, [CR]);
    }
  }

  function Map<S, T>(f: S -> T, s: seq<S>): (r: seq<T>)
    ensures |r| == |s|
    ensures forall i | 0 <= i < |s| :: r[i] == f(s[i])
  {
    seq(|s|, i requires 0 <= i < |s| => f(s[i]))
  }

  /** The tokens a bufio.Scanner yields: no token for an empty last line. */
  function ScanLines(content: string): (lines: seq<string>)
    ensures Without(lines, LF)
  {
    var parts := Split(content, LF);
    var kept := if parts[|parts| - 1] == "" then parts[..|parts| - 1] else parts;
    Map(DropCR, kept)
  }

  /** Every line is scanned, the last one with or without its newline, and loses one
      carriage return at its end. */
  lemma ScanText(lines: seq<string>, last: string)
    requires Without(lines, LF) && LF !in last
    ensures ScanLines(Terminated(lines) + last) == Map(DropCR, lines + if last == "" then [] else [last])
    ensures forall line: string :: DropCR(line + [CR]) == line
  {
    SplitText(lines, last);
    assert (lines + [last])[..|lines|] == lines == lines + [];
    forall line: string ensures DropCR(line + [CR]) == line {
      assert (line + [CR])[..|line|] == line;
    }
  }
}
