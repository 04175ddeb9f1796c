/** config.env as the letsencrypt subcommands read and rewrite it
    (internal/actions/panel/letsencrypt/letsencrypt.go). */
module EnvFile {
  import opened Text
  import opened Order

  /** An update with this value removes the key. */
  const RemoveMarker: string := "\U{0}__REMOVE__\U{0}"

  datatype Entry = Entry(key: string, value: string)

  /** What a line assigns, if it is neither blank, a comment nor without '='.
      The value keeps its leading spaces; readEnv trims it, the panel does not. */
  function LineEntry(raw: string): Option<Entry> {
    var t := TrimSpace(raw);
    if t == "" || t[0] == '#' || '=' !in t then None
    else
      var i := IndexOf(t, '=');
      Some(Entry(TrimSpace(t[..i]), t[i + 1..]))
  }

  predicate Assigns(entry: Option<Entry>, key: string) {
    entry.Some? && entry.value.key == key
  }

  predicate Names(raw: string, key: string) {
    Assigns(LineEntry(raw), key)
  }

  function Entries(lines: seq<string>): (entries: seq<Option<Entry>>)
    ensures |entries| == |lines|
    ensures forall i | 0 <= i < |lines| :: entries[i] == LineEntry(lines[i])
  {
    seq(|lines|, i requires 0 <= i < |lines| => LineEntry(lines[i]))
  }

  /** The last entry for a key wins. */
  function Find(entries: seq<Option<Entry>>, key: string): Option<string> {
    if entries == [] then None
    else
      var last := entries[|entries| - 1];
      if Assigns(last, key) then Some(last.value.value) else Find(entries[..|entries| - 1], key)
  }

  /** The value of a key in a file. */
  function Lookup(lines: seq<string>, key: string): Option<string> {
    Find(Entries(lines), key)
  }

  predicate Mentions(lines: seq<string>, key: string) {
    exists i | 0 <= i < |lines| :: Names(lines[i], key)
  }

  // ------------------------------------------------------------- readEnv

  /** `values` is the plain meaning of `lines`. */
  ghost predicate Means(values: map<string, string>, lines: seq<string>) {
    forall key :: if key in values then Lookup(lines, key) == Some(values[key]) else Lookup(lines, key) == None
  }

  ghost predicate MeansTrimmed(values: map<string, string>, lines: seq<string>) {
    forall key ::
      if key in values
      then Lookup(lines, key).Some? && values[key] == TrimSpace(Lookup(lines, key).value)
      else Lookup(lines, key) == None
  }

  lemma Take(tokens: seq<string>, i: nat)
    requires i < |tokens|
    ensures tokens[..i + 1] == tokens[..i] + [tokens[i]]
  {
  }

  lemma MeansTrimmedStep(values: map<string, string>, lines: seq<string>, raw: string)
    requires MeansTrimmed(values, lines)
    ensures match LineEntry(raw)
      case None => MeansTrimmed(values, lines + [raw])
      case Some(e) => MeansTrimmed(values[e.key := TrimSpace(e.value)], lines + [raw])
  {
    forall key
      ensures Lookup(lines + [raw], key) ==
        if Names(raw, key) then Some(LineEntry(raw).value.value) else Lookup(lines, key)
    {
      LookupLast(lines, raw, key);
    }
  }

  lemma LookupLast(lines: seq<string>, line: string, key: string)
    ensures Lookup(lines + [line], key) ==
      if Names(line, key) then Some(LineEntry(line).value.value) else Lookup(lines, key)
  {
    assert Entries(lines + [line])[..|lines|] == Entries(lines);
  }

  /** The map readEnv fills, line by line. */
  function EnvValues(lines: seq<string>): map<string, string> {
    if lines == [] then map[]
    else
      var n := |lines| - 1;
      var before, entry := EnvValues(lines[..n]), LineEntry(lines[n]);
      if entry.None? then before else before[entry.value.key := TrimSpace(entry.value.value)]
  }

  lemma {:induction false} EnvValuesMean(lines: seq<string>)
    ensures MeansTrimmed(EnvValues(lines), lines)
  {
    if lines != [] {
      var n := |lines| - 1;
      EnvValuesMean(lines[..n]);
      MeansTrimmedStep(EnvValues(lines[..n]), lines[..n], lines[n]);
      Take(lines, n);
      assert lines[..n + 1] == lines;
    }
  }

  lemma EnvValuesNext(lines: seq<string>, raw: string)
    ensures EnvValues(lines + [raw]) ==
      match LineEntry(raw)
      case None => EnvValues(lines)
      case Some(e) => EnvValues(lines)[e.key := TrimSpace(e.value)]
  {
    assert (lines + [raw])[..|lines|] == lines;
  }

  method ReadEnv(content: string) returns (lines: seq<string>, values: map<string, string>)
    ensures lines == ScanLines(content)
    ensures values == EnvValues(lines) && MeansTrimmed(values, lines)
  {
    var tokens := ScanLines(content);
    lines, values := [], map[];
    for i := 0 to |tokens|
      invariant lines == tokens[..i]
      invariant values == EnvValues(lines)
    {
      var raw := tokens[i];
      Take(tokens, i);
      EnvValuesNext(lines, raw);
      lines := lines + [raw];
      var entry := LineEntry(raw);
      if entry.Some? {
        values := values[entry.value.key := TrimSpace(entry.value.value)];
      }
    }
    EnvValuesMean(lines);
  }

  // ------------------------------------------------------------ writeEnv

  /** What writeEnv leaves in the place of a line. */
  function Rewrite(raw: string, updates: map<string, string>): string {
    var entry := LineEntry(raw);
    if entry.None? || entry.value.key !in updates then raw
    else
      var key := entry.value.key;
      if updates[key] == RemoveMarker then "" else Assignment(key, updates[key])
  }

  function Assignment(key: string, value: string): string {
    key + "=" + value
  }

  lemma RewriteCases(raw: string, updates: map<string, string>)
    ensures LineEntry(raw).Some? && LineEntry(raw).value.key in updates ==>
      var key := LineEntry(raw).value.key;
      Rewrite(raw, updates) == if updates[key] == RemoveMarker then "" else Assignment(key, updates[key])
    ensures !(LineEntry(raw).Some? && LineEntry(raw).value.key in updates) ==> Rewrite(raw, updates) == raw
  {
  }

  function Rewritten(lines: seq<string>, updates: map<string, string>): (r: seq<string>)
    ensures |r| == |lines|
    ensures forall i | 0 <= i < |lines| :: r[i] == Rewrite(lines[i], updates)
  {
    seq(|lines|, i requires 0 <= i < |lines| => Rewrite(lines[i], updates))
  }

  /** The keys that get a new line at the end: set, and named by no line. */
  ghost predicate IsMissing(lines: seq<string>, updates: map<string, string>, key: string) {
    key in updates && updates[key] != RemoveMarker && !Mentions(lines, key)
  }

  ghost predicate AreMissing(keys: seq<string>, lines: seq<string>, updates: map<string, string>) {
    SortedStrings(keys) && forall key :: key in keys <==> IsMissing(lines, updates, key)
  }

  function Assignments(keys: seq<string>, updates: map<string, string>): (r: seq<string>)
    requires forall key | key in keys :: key in updates
    ensures |r| == |keys|
    ensures forall i | 0 <= i < |keys| :: r[i] == Assignment(keys[i], updates[keys[i]])
  {
    seq(|keys|, i requires 0 <= i < |keys| => Assignment(keys[i], updates[keys[i]]))
  }

  ghost function Enumerate(s: set<string>): (r: seq<string>)
    ensures forall i, j | 0 <= i < j < |r| :: r[i] != r[j]
    ensures forall k :: k in r <==> k in s
  {
    if s == {} then [] else var k :| k in s; [k] + Enumerate(s - {k})
  }

  ghost function MissingKeys(lines: seq<string>, updates: map<string, string>): (keys: seq<string>)
    ensures AreMissing(keys, lines, updates)
  {
    SortStrings(Enumerate(set key | key in updates && IsMissing(lines, updates, key)))
  }

  /** There is one list of missing keys, whatever order the map is visited in. */
  lemma MissingUnique(keys: seq<string>, lines: seq<string>, updates: map<string, string>)
    requires AreMissing(keys, lines, updates)
    ensures keys == MissingKeys(lines, updates)
  {
    LessIsStrictOrder();
    forall x ensures x in keys <==> x in MissingKeys(lines, updates) {}
    SortedUnique(keys, MissingKeys(lines, updates), Less);
  }

  ghost function WrittenLines(lines: seq<string>, updates: map<string, string>, keys: seq<string>): seq<string>
    requires AreMissing(keys, lines, updates)
  {
    Rewritten(lines, updates) + Assignments(keys, updates)
  }

  /** What writeEnv writes: each line rewritten in its place, then the missing
      keys in sorted order, joined without a final newline. */
  ghost function Written(lines: seq<string>, updates: map<string, string>): string {
    Join(WrittenLines(lines, updates, MissingKeys(lines, updates)), LF)
  }

  /** The updated keys that some line names. */
  ghost function Mentioned(lines: seq<string>, updates: map<string, string>): set<string> {
    set key | key in updates && Mentions(lines, key)
  }

  /** The first loop of writeEnv, which overwrites the lines in place. */
  method RewriteLines(lines: array<string>, updates: map<string, string>) returns (seen: set<string>)
    modifies lines
    ensures lines[..] == Rewritten(old(lines[..]), updates)
    ensures seen == Mentioned(old(lines[..]), updates)
  {
    ghost var before := lines[..];
    seen := {};
    for i := 0 to lines.Length
      invariant lines[..] == Rewritten(before[..i], updates) + before[i..]
      invariant seen == Mentioned(before[..i], updates)
    {
      MentionedNext(before, i, updates);
      RewrittenNext(before, i, updates);
      ghost var was := lines[..];
      var raw := lines[i];
      assert raw == was[i] == before[i];
      var entry := LineEntry(raw);
      if entry.Some? && entry.value.key in updates {
        var key := entry.value.key;
        seen := seen + {key};
        lines[i] := if updates[key] == RemoveMarker then "" else Assignment(key, updates[key]);
      }
      assert lines[..] == was[i := lines[i]];
      PutAt(Rewritten(before[..i], updates), before, i, lines[i]);
    }
    assert before[..lines.Length] == before && lines[..] == lines[..] + before[lines.Length..];
  }

  lemma PutAt(done: seq<string>, lines: seq<string>, i: nat, line: string)
    requires |done| == i < |lines|
    ensures (done + lines[i..])[i := line] == done + [line] + lines[i + 1..]
  {
  }

  lemma RewrittenNext(lines: seq<string>, i: nat, updates: map<string, string>)
    requires i < |lines|
    ensures var entry, done := LineEntry(lines[i]), Rewritten(lines[..i], updates);
      Rewritten(lines[..i + 1], updates) == done + [
        if entry.None? || entry.value.key !in updates then lines[i]
        else if updates[entry.value.key] == RemoveMarker then ""
        else Assignment(entry.value.key, updates[entry.value.key])]
  {
    Take(lines, i);
    RewriteCases(lines[i], updates);
  }

  lemma MentionedNext(lines: seq<string>, i: nat, updates: map<string, string>)
    requires i < |lines|
    ensures var entry, seen := LineEntry(lines[i]), Mentioned(lines[..i], updates);
      Mentioned(lines[..i + 1], updates) ==
        if entry.Some? && entry.value.key in updates then seen + {entry.value.key} else seen
  {
    MentionsAppend(lines, i);
  }

  lemma MentionsAppend(lines: seq<string>, i: nat)
    requires i < |lines|
    ensures forall key :: Mentions(lines[..i + 1], key) <==> Mentions(lines[..i], key) || Names(lines[i], key)
  {
    forall key
      ensures Mentions(lines[..i + 1], key) <==> Mentions(lines[..i], key) || Names(lines[i], key)
    {
      if Mentions(lines[..i + 1], key) {
        var j :| 0 <= j < i + 1 && Names(lines[..i + 1][j], key);
        assert j < i ==> Names(lines[..i][j], key);
      }
      if Mentions(lines[..i], key) {
        var j :| 0 <= j < i && Names(lines[..i][j], key);
        assert Names(lines[..i + 1][j], key);
      }
      assert Names(lines[i], key) ==> Names(lines[..i + 1][i], key);
    }
  }

  /** The second loop, which visits the map in an arbitrary order, and the sort. */
  method CollectMissing(updates: map<string, string>, seen: set<string>) returns (keys: seq<string>)
    ensures SortedStrings(keys)
    ensures forall key :: key in keys <==> key in updates && key !in seen && updates[key] != RemoveMarker
  {
    var missing: seq<string> := [];
    var left := updates.Keys;
    while left != {}
      invariant left <= updates.Keys
      invariant forall i, j | 0 <= i < j < |missing| :: missing[i] != missing[j]
      invariant forall key :: key in missing <==>
        key in updates && key !in left && key !in seen && updates[key] != RemoveMarker
    {
      var key :| key in left;
      left := left - {key};
      if !(key in seen || updates[key] == RemoveMarker) {
        missing := missing + [key];
      }
    }
    keys := SortStrings(missing);
  }

  method WriteEnv(lines: array<string>, updates: map<string, string>) returns (content: string)
    modifies lines
    ensures lines[..] == Rewritten(old(lines[..]), updates)
    ensures content == Written(old(lines[..]), updates)
  {
    ghost var before := lines[..];
    var seen := RewriteLines(lines, updates);
    var keys := CollectMissing(updates, seen);
    assert AreMissing(keys, before, updates);
    content := Join(lines[..] + Assignments(keys, updates), LF);
    MissingUnique(keys, before, updates);
  }
}
