/** In-place line editing: findLineAndReplaceOrAdd (pkg/utils/fs.go). */
module LineReplace {
  import opened Text
  import Order

  /** The regular expressions: which needles compile, and what they match. */
  datatype Patterns = Patterns(valid: string -> bool, matches: (string, string) -> bool)

  /** A needle hits a line whose trimmed text it starts or matches. */
  predicate Hits(pat: Patterns, needle: string, line: string) {
    HasPrefix(TrimSpace(line), needle) || pat.matches(needle, TrimSpace(line))
  }

  /** The lines bufio.Reader.ReadLine yields: a carriage return goes only with
      its newline, and there is no line after a last newline. */
  function ReadLines(content: string): (lines: seq<string>)
    ensures Without(lines, LF)
  {
    var parts := Split(content, LF);
    var n := |parts| - 1;
    Map(DropCR, parts[..n]) + (if parts[n] == "" then [] else [parts[n]])
  }

  /** What is read of a text: every line without its newline and the carriage
      return in front of it, and what follows the last newline as it is. */
  lemma ReadText(lines: seq<string>, last: string)
    requires Without(lines, LF) && LF !in last
    ensures ReadLines(Terminated(lines) + last) == Map(DropCR, lines) + if last == "" then [] else [last]
  {
    SplitText(lines, last);
    assert (lines + [last])[..|lines|] == lines;
  }

  /** Lines without a final carriage return are read as they were written. */
  lemma ReadWritten(lines: seq<string>, last: string)
    requires Without(lines, LF) && LF !in last
    requires forall i | 0 <= i < |lines| :: lines[i] == "" || lines[i][|lines[i]| - 1] != CR
    ensures ReadLines(Terminated(lines) + last) == if last == "" then lines else lines + [last]
  {
    ReadText(lines, last);
    assert Map(DropCR, lines) == lines;
  }

  // ------------------------------------------------------------- splicing

  /** strings.Index, from an offset on. */
  function Index(s: string, sub: string, from: nat): (k: nat)
    requires exists j: nat :: from <= j && OccursAt(s, sub, j)
    ensures from <= k && OccursAt(s, sub, k)
    ensures forall j: nat | from <= j < k :: !OccursAt(s, sub, j)
    decreases |s| - from
  {
    if OccursAt(s, sub, from) then from else Index(s, sub, from + 1)
  }

  /** strings.LastIndex, up to an offset. */
  function LastIndex(s: string, sub: string, to: nat): (k: nat)
    requires exists j: nat :: j <= to && OccursAt(s, sub, j)
    ensures k <= to && OccursAt(s, sub, k)
    ensures forall j: nat | k < j <= to :: !OccursAt(s, sub, j)
  {
    if OccursAt(s, sub, to) then to else LastIndex(s, sub, to - 1)
  }

  lemma TrimOccurs(line: string)
    ensures exists j: nat :: j <= |line| && OccursAt(line, TrimSpace(line), j)
  {
    var pre, post := TrimSplit(line);
    assert OccursAt(line, TrimSpace(line), |pre|);
  }

  /** The text in front of the first and behind the last occurrence of the
      trimmed line, around the replacement. */
  function Splice(line: string, replacement: string): string {
    TrimOccurs(line);
    var t := TrimSpace(line);
    line[..Index(line, t, 0)] + replacement + line[LastIndex(line, t, |line|) + |t|..]
  }

  lemma OnlyOccurrence(pre: string, t: string, post: string, k: nat)
    requires AllSpace(pre) && AllSpace(post) && Trimmed(t) && t != ""
    requires OccursAt(pre + t + post, t, k)
    ensures k == |pre|
  {
    var line := pre + t + post;
    var found := line[k..k + |t|];
    assert line[k] == found[0] && line[k + |t| - 1] == found[|t| - 1];
    NotAmongSpaces(line, pre, t + post, k);
    NotAmongTrailing(line, pre + t, post, k + |t| - 1);
  }

  /** Splicing keeps the spaces around the text; a blank line loses its own. */
  lemma SpliceKeepsSpace(pre: string, t: string, post: string, replacement: string)
    requires AllSpace(pre) && AllSpace(post) && Trimmed(t)
    ensures Splice(pre + t + post, replacement) == if t == "" then replacement else pre + replacement + post
  {
    var line := pre + t + post;
    TrimUnique(pre, t, post);
    TrimOccurs(line);
    var fi, li := Index(line, t, 0), LastIndex(line, t, |line|);
    if t == "" {
      assert OccursAt(line, t, 0) && OccursAt(line, t, |line|);
      assert fi == 0 && li == |line|;
    } else {
      OnlyOccurrence(pre, t, post, fi);
      OnlyOccurrence(pre, t, post, li);
      assert line[..|pre|] == pre && line[|pre| + |t|..] == post;
    }
  }

  // ----------------------------------------------------------------- runs

  /** No needle before position i used k. */
  predicate Unused(used: seq<Option<string>>, i: nat, k: string)
    requires i <= |used|
  {
    forall j | 0 <= j < i :: used[j] != Some(k)
  }

  /** `used` tells which needle each line consumed: a needle still in the map
      that hits the line, and none only if no needle still in the map hits it. */
  ghost predicate IsRun(used: seq<Option<string>>, lines: seq<string>, m: map<string, string>, pat: Patterns) {
    && |used| <= |lines|
    && forall i | 0 <= i < |used| ::
         match used[i]
         case Some(k) => k in m && Unused(used, i, k) && Hits(pat, k, lines[i])
         case None => forall k | k in m && Unused(used, i, k) :: !Hits(pat, k, lines[i])
  }

  function WrittenLine(line: string, used: Option<string>, m: map<string, string>): string
    requires used.Some? ==> used.value in m
  {
    if used.None? then line else Splice(line, m[used.value])
  }

  function Body(lines: seq<string>, m: map<string, string>, used: seq<Option<string>>): (body: seq<string>)
    requires |used| <= |lines| && forall i | 0 <= i < |used| && used[i].Some? :: used[i].value in m
    ensures |body| == |used|
    ensures forall i | 0 <= i < |used| :: body[i] == WrittenLine(lines[i], used[i], m)
  {
    seq(|used|, i requires 0 <= i < |used| => WrittenLine(lines[i], used[i], m))
  }

  /** `order` lists the needles no line consumed, each once. */
  ghost predicate IsRest(order: seq<string>, m: map<string, string>, used: seq<Option<string>>) {
    && (forall i, j | 0 <= i < j < |order| :: order[i] != order[j])
    && (forall k :: k in order <==> k in m && Unused(used, |used|, k))
  }

  function Tail(m: map<string, string>, order: seq<string>): (tail: seq<string>)
    requires forall k | k in order :: k in m
    ensures |tail| == |order| && forall i | 0 <= i < |order| :: tail[i] == m[order[i]]
  {
    seq(|order|, i requires 0 <= i < |order| => m[order[i]])
  }

  /** Everything written: one line for each line read, then, with `add`, one
      line for each needle left over. */
  ghost predicate IsOutput(out: string, lines: seq<string>, m: map<string, string>, add: bool, pat: Patterns,
                           used: seq<Option<string>>, order: seq<string>)
  {
    && |used| == |lines| && IsRun(used, lines, m, pat) && IsRest(order, m, used)
    && out == Terminated(Body(lines, m, used) + if add then Tail(m, order) else [])
  }

  predicate AllValid(m: map<string, string>, pat: Patterns) {
    forall k | k in m :: pat.valid(k)
  }

  /** The range over the map for one line: needles come in an arbitrary order;
      a needle's pattern is compiled only when the prefix test fails. */
  method FindNeedle(line: string, needles: set<string>, pat: Patterns) returns (ok: bool, hit: Option<string>)
    ensures !ok ==> exists k | k in needles :: !pat.valid(k)
    ensures ok && hit.Some? ==> hit.value in needles && Hits(pat, hit.value, line)
    ensures ok && hit.None? ==> forall k | k in needles :: !Hits(pat, k, line)
  {
    var left := needles;
    while left != {}
      invariant left <= needles
      invariant forall k | k in needles && k !in left :: !Hits(pat, k, line)
    {
      var needle :| needle in left;
      left := left - {needle};
      var trimmed := TrimSpace(line);
      var equal := HasPrefix(trimmed, needle);
      var matched := false;
      if !equal {
        if !pat.valid(needle) {
          return false, None;
        }
        matched := pat.matches(needle, trimmed);
      }
      if equal || matched {
        return true, Some(needle);
      }
    }
    return true, None;
  }

  /** None is the error of a needle that is no pattern. */
  method FindLineAndReplaceOrAdd(content: string, replaceMap: map<string, string>, add: bool, pat: Patterns)
    returns (out: Option<string>, ghost used: seq<Option<string>>, ghost order: seq<string>)
    ensures AllValid(replaceMap, pat) ==> out.Some?
    ensures out.Some? ==> IsOutput(out.value, ReadLines(content), replaceMap, add, pat, used, order)
  {
    var lines := ReadLines(content);
    var m := replaceMap;
    var written: seq<string> := [];
    used, order := [], [];
    for i := 0 to |lines|
      invariant |used| == i && IsRun(used, lines, replaceMap, pat)
      invariant forall k :: k in m <==> k in replaceMap && Unused(used, |used|, k)
      invariant forall k | k in m :: m[k] == replaceMap[k]
      invariant written == Body(lines, replaceMap, used)
    {
      var line := lines[i];
      var ok, hit := FindNeedle(line, m.Keys, pat);
      if !ok {
        return None, used, order;
      }
      RunStep(used, lines, replaceMap, pat, hit);
      if hit.Some? {
        line := Splice(line, m[hit.value]);
        m := m - {hit.value};
      }
      written := written + [line];
      used := used + [hit];
    }

    var left := m.Keys;
    var tail: seq<string> := [];
    while left != {}
      invariant left <= m.Keys
      invariant forall i, j | 0 <= i < j < |order| :: order[i] != order[j]
      invariant forall k :: k in order <==> k in m && k !in left
      invariant tail == Tail(replaceMap, order)
    {
      var needle :| needle in left;
      left := left - {needle};
      tail := tail + [m[needle]];
      order := order + [needle];
    }
    out := Some(Terminated(written + if add then tail else []));
  }

  lemma RunStep(used: seq<Option<string>>, lines: seq<string>, m: map<string, string>, pat: Patterns,
                hit: Option<string>)
    requires |used| < |lines| && IsRun(used, lines, m, pat)
    requires hit.Some? ==> hit.value in m && Unused(used, |used|, hit.value) && Hits(pat, hit.value, lines[|used|])
    requires hit.None? ==> forall k | k in m && Unused(used, |used|, k) :: !Hits(pat, k, lines[|used|])
    ensures IsRun(used + [hit], lines, m, pat)
    ensures forall k :: Unused(used + [hit], |used| + 1, k) <==> Unused(used, |used|, k) && hit != Some(k)
    ensures Body(lines, m, used + [hit]) == Body(lines, m, used) + [WrittenLine(lines[|used|], hit, m)]
  {
    var all := used + [hit];
    forall i, k | 0 <= i <= |used| ensures Unused(all, i, k) <==> Unused(used, i, k) {
      assert forall j | 0 <= j < i :: all[j] == used[j];
    }
    forall k ensures Unused(all, |used| + 1, k) <==> Unused(used, |used|, k) && hit != Some(k) {
      assert forall j | 0 <= j < |used| :: all[j] == used[j];
      assert all[|used|] == hit;
    }
  }

  // --------------------------------------------------------- conservation

  /** The needles that were consumed. */
  ghost function Consumed(used: seq<Option<string>>): set<string> {
    set i | 0 <= i < |used| && used[i].Some? :: used[i].value
  }

  lemma ConsumedOnce(used: seq<Option<string>>, lines: seq<string>, m: map<string, string>, pat: Patterns)
    requires IsRun(used, lines, m, pat)
    ensures forall i, j | 0 <= i < j < |used| && used[i].Some? :: used[i] != used[j]
    ensures Consumed(used) <= m.Keys
  {
    forall i, j | 0 <= i < j < |used| && used[i].Some? ensures used[i] != used[j] {
      assert used[j].Some? ==> Unused(used, j, used[j].value);
    }
  }

  lemma RestSize(used: seq<Option<string>>, m: map<string, string>, order: seq<string>)
    requires Consumed(used) <= m.Keys && IsRest(order, m, used)
    ensures |order| == |m| - |Consumed(used)|
  {
    var rest := set k | k in order;
    SetOfDistinct(order);
    forall k ensures Unused(used, |used|, k) <==> k !in Consumed(used) {
      assert forall i | 0 <= i < |used| :: used[i] == Some(k) <==> used[i].Some? && used[i].value == k;
    }
    assert rest == m.Keys - Consumed(used);
  }

  /** Each needle is consumed by at most one line; with `add`, what is written
      is one line for each line read and one for each needle not consumed. */
  lemma Conservation(lines: seq<string>, m: map<string, string>, pat: Patterns,
                     used: seq<Option<string>>, order: seq<string>)
    requires |used| == |lines| && IsRun(used, lines, m, pat) && IsRest(order, m, used)
    ensures forall i, j | 0 <= i < j < |used| && used[i].Some? :: used[i] != used[j]
    ensures |Body(lines, m, used) + Tail(m, order)| == |lines| + |m| - |Consumed(used)|
  {
    ConsumedOnce(used, lines, m, pat);
    RestSize(used, m, order);
  }

  /** The same over the text of the file: a last line without a newline counts. */
  lemma TextConservation(lines: seq<string>, last: string, m: map<string, string>, add: bool, pat: Patterns,
                         out: string, used: seq<Option<string>>, order: seq<string>)
    returns (written: seq<string>)
    requires Without(lines, LF) && LF !in last
    requires IsOutput(out, ReadLines(Terminated(lines) + last), m, add, pat, used, order)
    ensures out == Terminated(written)
    ensures |written| ==
      |lines| + (if last == "" then 0 else 1) + if add then |m| - |Consumed(used)| else 0
  {
    var read := ReadLines(Terminated(lines) + last);
    ReadText(lines, last);
    written := Body(read, m, used) + if add then Tail(m, order) else [];
    Conservation(read, m, pat, used, order);
  }

  /** A file in which no needle hits is written as it was, but that a last line is
      given a newline. */
  lemma NoHitNoChange(lines: seq<string>, last: string, m: map<string, string>, pat: Patterns,
                      out: string, used: seq<Option<string>>, order: seq<string>)
    requires Without(lines, LF) && LF !in last
    requires forall i | 0 <= i < |lines| :: lines[i] == "" || lines[i][|lines[i]| - 1] != CR
    requires IsOutput(out, ReadLines(Terminated(lines) + last), m, false, pat, used, order)
    requires forall k, l | k in m && l in lines + [last] :: !Hits(pat, k, l)
    ensures out == Terminated(lines + if last == "" then [] else [last])
  {
    var read := lines + if last == "" then [] else [last];
    ReadWritten(lines, last);
    assert ReadLines(Terminated(lines) + last) == read;
    forall i | 0 <= i < |read| ensures used[i] == None {
      assert read[i] in lines + [last];
    }
    assert Body(read, m, used) == read;
    assert read + [] == read;
  }

  lemma {:induction false} SetOfDistinct(s: seq<string>)
    requires forall i, j | 0 <= i < j < |s| :: s[i] != s[j]
    ensures |set k | k in s| == |s|
  {
    if s != [] {
      SetOfDistinct(s[1..]);
      assert (set k | k in s) == {s[0]} + (set k | k in s[1..]);
    }
  }

  // ----------------------------------------------------------- confluence

  /** No line is hit by two needles. */
  ghost predicate Disjoint(lines: seq<string>, m: map<string, string>, pat: Patterns) {
    forall i, k, k' | 0 <= i < |lines| && k in m && k' in m ::
      Hits(pat, k, lines[i]) && Hits(pat, k', lines[i]) ==> k == k'
  }

  ghost predicate FirstHit(lines: seq<string>, pat: Patterns, k: string, i: nat) {
    && i < |lines|
    && Hits(pat, k, lines[i])
    && forall j | 0 <= j < i :: !Hits(pat, k, lines[j])
  }

  /** Then each needle is consumed by exactly the first line it hits. */
  lemma ConsumedAtFirstHit(lines: seq<string>, m: map<string, string>, pat: Patterns,
                           used: seq<Option<string>>, i: nat, k: string)
    requires Disjoint(lines, m, pat)
    requires |used| == |lines| && IsRun(used, lines, m, pat) && i < |lines|
    ensures used[i] == Some(k) <==> k in m && FirstHit(lines, pat, k, i)
  {
    if used[i] == Some(k) {
      assert Unused(used, i, k);
      forall j | 0 <= j < i ensures !Hits(pat, k, lines[j]) {
        assert Unused(used, j, k);
        assert used[j] != Some(k);
      }
    }
    if k in m && FirstHit(lines, pat, k, i) {
      assert forall j | 0 <= j < i && used[j].Some? :: Hits(pat, used[j].value, lines[j]);
      assert Unused(used, i, k);
    }
  }

  /** Any two map iteration orders write the same body, and tails that are
      permutations of one another. */
  lemma Confluence(lines: seq<string>, m: map<string, string>, add: bool, pat: Patterns,
                   out1: string, used1: seq<Option<string>>, order1: seq<string>,
                   out2: string, used2: seq<Option<string>>, order2: seq<string>)
    requires Disjoint(lines, m, pat)
    requires IsOutput(out1, lines, m, add, pat, used1, order1)
    requires IsOutput(out2, lines, m, add, pat, used2, order2)
    ensures Body(lines, m, used1) == Body(lines, m, used2)
    ensures multiset(Tail(m, order1)) == multiset(Tail(m, order2))
    ensures !add ==> out1 == out2
  {
    forall i | 0 <= i < |lines| ensures used1[i] == used2[i] {
      if used1[i].Some? {
        ConsumedAtFirstHit(lines, m, pat, used1, i, used1[i].value);
        ConsumedAtFirstHit(lines, m, pat, used2, i, used1[i].value);
      } else if used2[i].Some? {
        ConsumedAtFirstHit(lines, m, pat, used2, i, used2[i].value);
        ConsumedAtFirstHit(lines, m, pat, used1, i, used2[i].value);
      }
    }
    assert used1 == used2;
    TailsPermute(m, order1, order2);
  }

  /** When two needles hit the same line, the order decides what is written. */
  lemma OverlapDepends(pat: Patterns)
    ensures var lines, m := ["ab"], map["a" := "x", "ab" := "y"];
      && IsRun([Some("a")], lines, m, pat) && Body(lines, m, [Some("a")]) == ["x"]
      && IsRun([Some("ab")], lines, m, pat) && Body(lines, m, [Some("ab")]) == ["y"]
  {
    assert Trimmed("ab") && "" + "ab" + "" == "ab";
    TrimOfTrimmed("ab");
    SpliceKeepsSpace("", "ab", "", "x");
    SpliceKeepsSpace("", "ab", "", "y");
    assert "" + "x" + "" == "x" && "" + "y" + "" == "y";
    assert HasPrefix("ab", "a") && HasPrefix("ab", "ab");
    assert Splice("ab", "x") == "x" && Splice("ab", "y") == "y";
  }

  lemma {:induction false} TailsPermute(m: map<string, string>, a: seq<string>, b: seq<string>)
    requires forall i, j | 0 <= i < j < |a| :: a[i] != a[j]
    requires forall i, j | 0 <= i < j < |b| :: b[i] != b[j]
    requires forall k :: k in a <==> k in b
    requires forall k | k in a :: k in m
    ensures multiset(Tail(m, a)) == multiset(Tail(m, b))
  {
    if a == [] {
      Order.FirstIsIn(b);
    } else {
      assert a[0] in b;
      var j :| 0 <= j < |b| && b[j] == a[0];
      forall k ensures k in Remove(a, 0) <==> k in Remove(b, j) {
        RemovedAt(a, 0, k);
        RemovedAt(b, j, k);
      }
      RemoveStaysDistinct(a, 0);
      RemoveStaysDistinct(b, j);
      TailsPermute(m, Remove(a, 0), Remove(b, j));
      RemoveFromTail(m, a, 0);
      RemoveFromTail(m, b, j);
    }
  }

  function Remove(s: seq<string>, j: nat): (r: seq<string>)
    requires j < |s|
    ensures |r| == |s| - 1
    ensures forall i | 0 <= i < j :: r[i] == s[i]
    ensures forall i | j <= i < |r| :: r[i] == s[i + 1]
  {
    s[..j] + s[j + 1..]
  }

  lemma RemoveStaysDistinct(s: seq<string>, j: nat)
    requires j < |s| && forall i, i' | 0 <= i < i' < |s| :: s[i] != s[i']
    ensures forall i, i' | 0 <= i < i' < |s| - 1 :: Remove(s, j)[i] != Remove(s, j)[i']
  {
  }

  lemma RemovedAt(s: seq<string>, j: nat, k: string)
    requires j < |s| && forall i, i' | 0 <= i < i' < |s| :: s[i] != s[i']
    ensures k in Remove(s, j) <==> k in s && k != s[j]
  {
    var r := Remove(s, j);
    if k in s && k != s[j] {
      var i :| 0 <= i < |s| && s[i] == k;
      assert r[if i < j then i else i - 1] == k;
    }
    if k in r {
      var i :| 0 <= i < |r| && r[i] == k;
      assert s[if i < j then i else i + 1] == k;
    }
  }

  lemma RemoveFromTail(m: map<string, string>, order: seq<string>, j: nat)
    requires j < |order| && forall k | k in order :: k in m
    ensures forall k | k in Remove(order, j) :: k in m
    ensures multiset(Tail(m, order)) == multiset(Tail(m, Remove(order, j))) + multiset{m[order[j]]}
  {
    var tail := Tail(m, order);
    assert forall k | k in Remove(order, j) :: k in order;
    assert Tail(m, Remove(order, j)) == tail[..j] + tail[j + 1..];
    assert tail == tail[..j] + [tail[j]] + tail[j + 1..];
  }
}
