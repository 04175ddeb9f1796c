/** writeEnv followed by readEnv is a map update that leaves every other line
    of config.env alone. */
module EnvMap {
  import opened Text
  import opened EnvFile

  /** Keys a line `key=value` is read back under. */
  predicate KeyOk(key: string) {
    && Trimmed(key)
    && '=' !in key
    && LF !in key
    && (key == "" || key[0] != '#')
  }

  predicate WellFormed(updates: map<string, string>) {
    forall key | key in updates :: KeyOk(key) && LF !in updates[key]
  }

  // ---------------------------------------------------------- one line

  lemma EntryOfText(raw: string, key: string, value: string)
    requires KeyOk(key) && TrimSpace(raw) == key + ['='] + value
    ensures LineEntry(raw) == Some(Entry(key, value))
  {
    var t := key + ['='] + value;
    IndexOfConcat(key, '=', value);
    assert t[..|key|] == key && t[|key| + 1..] == value;
    TrimOfTrimmed(key);
    assert t[|key|] == '=';
  }

  lemma TrimAssignment(key: string, value: string)
    requires KeyOk(key)
    ensures TrimSpace(Assignment(key, value)) == key + ['='] + TrimRight(value)
  {
    var post := TrimRightSplit(value);
    var kept := TrimRight(value);
    var t := key + ['='] + kept;
    assert Assignment(key, kept + post) == "" + t + post;
    assert Trimmed(t) by {
      assert t[|key|] == '=' && t[|t| - 1] == if kept == "" then '=' else kept[|kept| - 1];
    }
    TrimUnique("", t, post);
  }

  /** The line key=value assigns value, less its trailing spaces, to key. */
  lemma AssignmentEntry(key: string, value: string)
    requires KeyOk(key)
    ensures LineEntry(Assignment(key, value)) == Some(Entry(key, TrimRight(value)))
  {
    TrimAssignment(key, value);
    EntryOfText(Assignment(key, value), key, TrimRight(value));
  }

  lemma TrimSpaceOfTrimRight(value: string)
    ensures TrimSpace(TrimRight(value)) == TrimSpace(value)
  {
    var post := TrimRightSplit(value);
    var kept := TrimRight(value);
    assert value == kept + post;
    assert kept + post == "" + kept + post;
    TrimIgnoresEnds("", kept, post);
  }

  lemma BlankEntry(line: string)
    requires TrimSpace(line) == ""
    ensures LineEntry(line) == None
  {
  }

  lemma DropCREntry(line: string)
    ensures LineEntry(DropCR(line)) == LineEntry(line)
  {
    DropCRTrim(line);
  }

  // ------------------------------------------------------ whole files

  lemma {:induction false} FindConcat(a: seq<Option<Entry>>, b: seq<Option<Entry>>, key: string)
    ensures Find(a + b, key) == if Find(b, key).Some? then Find(b, key) else Find(a, key)
  {
    if b == [] {
      assert a + b == a;
    } else {
      assert (a + b)[..|a + b| - 1] == a + b[..|b| - 1];
      FindConcat(a, b[..|b| - 1], key);
    }
  }

  lemma {:induction false} FindAssigned(entries: seq<Option<Entry>>, key: string)
    ensures Find(entries, key).Some? <==> exists i | 0 <= i < |entries| :: Assigns(entries[i], key)
  {
    if entries != [] {
      FindAssigned(entries[..|entries| - 1], key);
    }
  }

  lemma LookupMentions(lines: seq<string>, key: string)
    ensures Lookup(lines, key).Some? <==> Mentions(lines, key)
  {
    FindAssigned(Entries(lines), key);
    assert forall i | 0 <= i < |lines| :: Names(lines[i], key) <==> Assigns(Entries(lines)[i], key);
  }

  /** The entry writeEnv leaves in the place of an entry. */
  function UpdateEntry(entry: Option<Entry>, updates: map<string, string>): Option<Entry> {
    if entry.None? || entry.value.key !in updates then entry
    else if updates[entry.value.key] == RemoveMarker then None
    else Some(Entry(entry.value.key, TrimRight(updates[entry.value.key])))
  }

  lemma RewriteEntry(raw: string, updates: map<string, string>)
    requires WellFormed(updates)
    ensures LineEntry(Rewrite(raw, updates)) == UpdateEntry(LineEntry(raw), updates)
  {
    RewriteCases(raw, updates);
    var entry := LineEntry(raw);
    if entry.Some? && entry.value.key in updates {
      AssignmentEntry(entry.value.key, updates[entry.value.key]);
      BlankEntry("");
    }
  }

  lemma {:induction false} FindUpdated(a: seq<Option<Entry>>, b: seq<Option<Entry>>,
                                       updates: map<string, string>, key: string)
    requires |a| == |b| && forall i | 0 <= i < |a| :: b[i] == UpdateEntry(a[i], updates)
    ensures Find(b, key) ==
      if key !in updates || Find(a, key) == None then Find(a, key)
      else if updates[key] == RemoveMarker then None
      else Some(TrimRight(updates[key]))
  {
    if a != [] {
      FindUpdated(a[..|a| - 1], b[..|a| - 1], updates, key);
    }
  }

  lemma {:induction false} FindAssignments(entries: seq<Option<Entry>>, keys: seq<string>,
                                           updates: map<string, string>, key: string)
    requires |entries| == |keys|
    requires forall i | 0 <= i < |keys| ::
      keys[i] in updates && entries[i] == Some(Entry(keys[i], TrimRight(updates[keys[i]])))
    ensures Find(entries, key) == if key in keys then Some(TrimRight(updates[key])) else None
  {
    if keys != [] {
      var n := |keys| - 1;
      FindAssignments(entries[..n], keys[..n], updates, key);
      assert key in keys <==> key in keys[..n] || key == keys[n];
    }
  }

  lemma EntriesConcat(a: seq<string>, b: seq<string>)
    ensures Entries(a + b) == Entries(a) + Entries(b)
  {
    var all := Entries(a + b);
    forall i | 0 <= i < |all| ensures all[i] == (Entries(a) + Entries(b))[i] {
      assert (a + b)[i] == if i < |a| then a[i] else b[i - |a|];
    }
  }

  lemma LookupConcat(a: seq<string>, b: seq<string>, key: string)
    ensures Lookup(a + b, key) == if Lookup(b, key).Some? then Lookup(b, key) else Lookup(a, key)
  {
    FindConcat(Entries(a), Entries(b), key);
    EntriesConcat(a, b);
  }

  lemma LookupRewritten(lines: seq<string>, updates: map<string, string>, key: string)
    requires WellFormed(updates)
    ensures Lookup(Rewritten(lines, updates), key) ==
      if key !in updates || Lookup(lines, key) == None then Lookup(lines, key)
      else if updates[key] == RemoveMarker then None
      else Some(TrimRight(updates[key]))
  {
    var a := Rewritten(lines, updates);
    forall i | 0 <= i < |lines| ensures Entries(a)[i] == UpdateEntry(Entries(lines)[i], updates) {
      RewriteEntry(lines[i], updates);
    }
    FindUpdated(Entries(lines), Entries(a), updates, key);
  }

  lemma LookupAssignments(keys: seq<string>, updates: map<string, string>, key: string)
    requires WellFormed(updates) && forall k | k in keys :: k in updates
    ensures Lookup(Assignments(keys, updates), key) == if key in keys then Some(TrimRight(updates[key])) else None
  {
    var b := Assignments(keys, updates);
    forall i | 0 <= i < |keys|
      ensures keys[i] in updates && Entries(b)[i] == Some(Entry(keys[i], TrimRight(updates[keys[i]])))
    {
      assert keys[i] in keys;
      AssignmentEntry(keys[i], updates[keys[i]]);
    }
    FindAssignments(Entries(b), keys, updates, key);
  }

  lemma LookupWritten(lines: seq<string>, updates: map<string, string>, keys: seq<string>, key: string)
    requires WellFormed(updates) && AreMissing(keys, lines, updates)
    ensures Lookup(WrittenLines(lines, updates, keys), key) ==
      if key !in updates then Lookup(lines, key)
      else if updates[key] == RemoveMarker then None
      else Some(TrimRight(updates[key]))
  {
    LookupConcat(Rewritten(lines, updates), Assignments(keys, updates), key);
    LookupRewritten(lines, updates, key);
    LookupAssignments(keys, updates, key);
    LookupMentions(lines, key);
    assert key in keys <==> IsMissing(lines, updates, key);
  }

  lemma WrittenLinesWithoutLF(lines: seq<string>, updates: map<string, string>, keys: seq<string>)
    requires WellFormed(updates) && Without(lines, LF) && AreMissing(keys, lines, updates)
    ensures Without(WrittenLines(lines, updates, keys), LF)
  {
    forall i | 0 <= i < |lines| ensures LF !in Rewritten(lines, updates)[i] {
      RewriteCases(lines[i], updates);
    }
    forall i | 0 <= i < |keys| ensures LF !in Assignments(keys, updates)[i] {
      assert keys[i] in keys;
    }
  }

  /** The lines a scanner finds in joined lines: all but an empty last one. */
  function Kept(lines: seq<string>): seq<string> {
    if lines != [] && lines[|lines| - 1] == "" then lines[..|lines| - 1] else lines
  }

  lemma ScanJoined(lines: seq<string>)
    requires Without(lines, LF)
    ensures ScanLines(Join(lines, LF)) == Map(DropCR, Kept(lines))
  {
    if lines == [] {
      assert ScanLines("") == [];
    } else {
      SplitJoin(lines, LF);
    }
  }

  lemma EntriesWithoutCR(lines: seq<string>)
    ensures Entries(Map(DropCR, lines)) == Entries(lines)
  {
    forall i | 0 <= i < |lines| ensures LineEntry(DropCR(lines[i])) == LineEntry(lines[i]) {
      DropCREntry(lines[i]);
    }
  }

  lemma LookupKept(lines: seq<string>, key: string)
    ensures Lookup(Kept(lines), key) == Lookup(lines, key)
  {
    var kept := Kept(lines);
    if kept != lines {
      BlankEntry("");
      LookupLast(kept, "", key);
      assert lines == kept + [""];
    }
  }

  /** Joining lines and scanning the result keeps every assignment. */
  lemma LookupScanned(lines: seq<string>, key: string)
    requires Without(lines, LF)
    ensures Lookup(ScanLines(Join(lines, LF)), key) == Lookup(lines, key)
  {
    calc {
      Lookup(ScanLines(Join(lines, LF)), key);
      { ScanJoined(lines); }
      Find(Entries(Map(DropCR, Kept(lines))), key);
      { EntriesWithoutCR(Kept(lines)); }
      Lookup(Kept(lines), key);
      { LookupKept(lines, key); }
      Lookup(lines, key);
    }
  }

  /** What a key reads as after writeEnv. */
  lemma WrittenLookup(lines: seq<string>, updates: map<string, string>, key: string)
    requires WellFormed(updates) && Without(lines, LF)
    ensures Lookup(ScanLines(Written(lines, updates)), key) ==
      if key !in updates then Lookup(lines, key)
      else if updates[key] == RemoveMarker then None
      else Some(TrimRight(updates[key]))
  {
    var keys := MissingKeys(lines, updates);
    WrittenLinesWithoutLF(lines, updates, keys);
    LookupScanned(WrittenLines(lines, updates, keys), key);
    LookupWritten(lines, updates, keys, key);
  }

  /** The plain map update an `updates` map stands for. */
  function Updated(before: map<string, string>, updates: map<string, string>): map<string, string> {
    (before - updates.Keys)
    + map key | key in updates && updates[key] != RemoveMarker :: TrimSpace(updates[key])
  }

  lemma UpdatedAt(content: string, updates: map<string, string>, key: string)
    requires WellFormed(updates)
    ensures var before := EnvValues(ScanLines(content));
      var after := EnvValues(ScanLines(Written(ScanLines(content), updates)));
      && (key in after <==> key in Updated(before, updates))
      && (key in after ==> after[key] == Updated(before, updates)[key])
  {
    var lines := ScanLines(content);
    var written := ScanLines(Written(lines, updates));
    ValueAt(lines, key);
    ValueAt(written, key);
    WrittenLookup(lines, updates, key);
    if key in updates {
      TrimSpaceOfTrimRight(updates[key]);
    }
  }

  lemma ValueAt(lines: seq<string>, key: string)
    ensures key in EnvValues(lines) <==> Lookup(lines, key).Some?
    ensures key in EnvValues(lines) ==> EnvValues(lines)[key] == TrimSpace(Lookup(lines, key).value)
  {
    EnvValuesMean(lines);
  }

  /** Reading, writing and reading again is a map update. */
  lemma WriteRefinesUpdate(content: string, updates: map<string, string>)
    requires WellFormed(updates)
    ensures EnvValues(ScanLines(Written(ScanLines(content), updates))) ==
      Updated(EnvValues(ScanLines(content)), updates)
  {
    var before := EnvValues(ScanLines(content));
    var after := EnvValues(ScanLines(Written(ScanLines(content), updates)));
    forall key
      ensures key in after <==> key in Updated(before, updates)
      ensures key in after ==> after[key] == Updated(before, updates)[key]
    {
      UpdatedAt(content, updates, key);
    }
  }

  /** Every line keeps its place; those naming no updated key keep their text;
      the new keys follow in sorted order. */
  lemma OtherLinesVerbatim(lines: seq<string>, updates: map<string, string>)
    requires WellFormed(updates) && Without(lines, LF) && lines != []
    ensures var keys, now := MissingKeys(lines, updates), Split(Written(lines, updates), LF);
      && |now| == |lines| + |keys|
      && (forall i | 0 <= i < |lines| && !NamesAny(lines[i], updates) :: now[i] == lines[i])
      && now[|lines|..] == Assignments(keys, updates)
  {
    var keys := MissingKeys(lines, updates);
    WrittenLinesWithoutLF(lines, updates, keys);
    SplitJoin(WrittenLines(lines, updates, keys), LF);
    forall i | 0 <= i < |lines| && !NamesAny(lines[i], updates)
      ensures Rewritten(lines, updates)[i] == lines[i]
    {
      RewriteCases(lines[i], updates);
    }
  }

  /** The line assigns one of the updated keys. */
  predicate NamesAny(line: string, updates: map<string, string>) {
    LineEntry(line).Some? && LineEntry(line).value.key in updates
  }

  // ------------------------------------------------- a second application

  predicate IsBlank(line: string) {
    TrimSpace(line) == ""
  }

  function NonBlank(lines: seq<string>): seq<string> {
    if lines == [] then []
    else
      var last, kept := lines[|lines| - 1], NonBlank(lines[..|lines| - 1]);
      if IsBlank(last) then kept else kept + [last]
  }

  ghost predicate SameText(a: seq<string>, b: seq<string>)
    requires |a| == |b|
  {
    forall i | 0 <= i < |a| :: IsBlank(a[i]) || a[i] == b[i]
  }

  lemma NonBlankSame(a: seq<string>, b: seq<string>)
    requires |a| == |b| && forall i | 0 <= i < |a| :: IsBlank(a[i]) <==> IsBlank(b[i])
    ensures NonBlank(a) == NonBlank(b) <==> SameText(a, b)
  {
    NonBlankSameUpTo(a, b, |a|);
    assert a[..|a|] == a && b[..|b|] == b;
  }

  lemma {:induction false} NonBlankSameUpTo(a: seq<string>, b: seq<string>, n: nat)
    requires n <= |a| == |b| && forall i | 0 <= i < |a| :: IsBlank(a[i]) <==> IsBlank(b[i])
    ensures |NonBlank(a[..n])| == |NonBlank(b[..n])|
    ensures NonBlank(a[..n]) == NonBlank(b[..n]) <==> SameText(a[..n], b[..n])
  {
    if n > 0 {
      NonBlankSameUpTo(a, b, n - 1);
      NonBlankSameStep(a[..n - 1], a[n - 1], b[..n - 1], b[n - 1]);
      Take(a, n - 1);
      Take(b, n - 1);
    }
  }

  lemma NonBlankSameStep(a: seq<string>, x: string, b: seq<string>, y: string)
    requires |a| == |b| && (IsBlank(x) <==> IsBlank(y))
    requires |NonBlank(a)| == |NonBlank(b)| && (NonBlank(a) == NonBlank(b) <==> SameText(a, b))
    ensures |NonBlank(a + [x])| == |NonBlank(b + [y])|
    ensures NonBlank(a + [x]) == NonBlank(b + [y]) <==> SameText(a + [x], b + [y])
  {
    NonBlankAppend(a, x);
    NonBlankAppend(b, y);
    SameTextLast(a, x, b, y);
    LastEqual(NonBlank(a), x, NonBlank(b), y);
  }

  lemma NonBlankAppend(a: seq<string>, x: string)
    ensures NonBlank(a + [x]) == if IsBlank(x) then NonBlank(a) else NonBlank(a) + [x]
  {
    assert (a + [x])[..|a|] == a;
  }

  lemma SameTextLast(a: seq<string>, x: string, b: seq<string>, y: string)
    requires |a| == |b|
    ensures SameText(a + [x], b + [y]) <==> SameText(a, b) && (IsBlank(x) || x == y)
  {
    assert (a + [x])[|a|] == x && (b + [y])[|a|] == y;
    assert forall i | 0 <= i < |a| :: (a + [x])[i] == a[i] && (b + [y])[i] == b[i];
  }

  lemma LastEqual(x: seq<string>, p: string, y: seq<string>, q: string)
    requires |x| == |y|
    ensures x + [p] == y + [q] <==> x == y && p == q
  {
    assert (x + [p])[..|x|] == x && (y + [q])[..|y|] == y;
    assert (x + [p])[|x|] == p && (y + [q])[|y|] == q;
  }

  /** A line that writeEnv copies, holds text and ends in a carriage return. */
  ghost predicate KeepsCR(line: string, updates: map<string, string>) {
    && !IsBlank(line)
    && line[|line| - 1] == CR
    && !NamesAny(line, updates)
  }

  /** What a second application makes of one line the first one wrote. */
  lemma RewriteAgain(line: string, updates: map<string, string>)
    requires WellFormed(updates)
    ensures var w := Rewrite(line, updates);
      && (IsBlank(Rewrite(DropCR(w), updates)) <==> IsBlank(w))
      && (IsBlank(w) || Rewrite(DropCR(w), updates) == w <==> !KeepsCR(line, updates))
  {
    RewriteCases(line, updates);
    var w := Rewrite(line, updates);
    DropCREntry(w);
    DropCRTrim(w);
    RewriteCases(DropCR(w), updates);
    BlankEntry("");
    var entry := LineEntry(line);
    if entry.Some? && entry.value.key in updates {
      AssignmentEntry(entry.value.key, updates[entry.value.key]);
    }
  }

  lemma AssignmentAgain(key: string, updates: map<string, string>)
    requires WellFormed(updates) && key in updates && updates[key] != RemoveMarker
    ensures var w := Assignment(key, updates[key]);
      Rewrite(DropCR(w), updates) == w && Names(DropCR(w), key)
  {
    var w := Assignment(key, updates[key]);
    AssignmentEntry(key, updates[key]);
    DropCREntry(w);
    RewriteCases(DropCR(w), updates);
  }

  /** Everything the first application wrote is named when the second one
      starts, so the second one appends nothing. */
  lemma NothingMissing(lines: seq<string>, updates: map<string, string>)
    requires WellFormed(updates) && Without(lines, LF)
    ensures MissingKeys(ScanLines(Written(lines, updates)), updates) == []
  {
    var written := ScanLines(Written(lines, updates));
    var keys := MissingKeys(written, updates);
    if keys != [] {
      var key := keys[0];
      assert key in keys;
      WrittenLookup(lines, updates, key);
      LookupMentions(written, key);
      assert false;
    }
  }

  /** What writeEnv makes of its own line when it runs a second time. */
  function Again(w: seq<string>, updates: map<string, string>): (r: seq<string>)
    ensures |r| == |w|
    ensures forall i | 0 <= i < |w| :: r[i] == Rewrite(DropCR(w[i]), updates)
  {
    seq(|w|, i requires 0 <= i < |w| => Rewrite(DropCR(w[i]), updates))
  }

  /** Scanning and rewriting written lines treats them one by one; at most a
      last empty line goes missing. */
  lemma RewriteScanned(w: seq<string>, updates: map<string, string>)
    requires Without(w, LF)
    ensures NonBlank(Rewritten(ScanLines(Join(w, LF)), updates)) == NonBlank(Again(w, updates))
  {
    var kept := Kept(w);
    calc {
      NonBlank(Rewritten(ScanLines(Join(w, LF)), updates));
      { ScanJoined(w); }
      NonBlank(Rewritten(Map(DropCR, kept), updates));
      { RewrittenIsAgain(kept, updates); }
      NonBlank(Again(kept, updates));
      { KeptAgain(w, updates); }
      NonBlank(Again(w, updates));
    }
  }

  lemma KeptAgain(w: seq<string>, updates: map<string, string>)
    ensures NonBlank(Again(Kept(w), updates)) == NonBlank(Again(w, updates))
  {
    if w != [] && w[|w| - 1] == "" {
      assert w == Kept(w) + [""];
      LastBlank(Kept(w), w, updates);
    }
  }

  lemma RewrittenIsAgain(w: seq<string>, updates: map<string, string>)
    ensures Rewritten(Map(DropCR, w), updates) == Again(w, updates)
  {
  }

  lemma LastBlank(kept: seq<string>, w: seq<string>, updates: map<string, string>)
    requires w == kept + [""]
    ensures NonBlank(Again(w, updates)) == NonBlank(Again(kept, updates))
  {
    BlankEntry("");
    RewriteCases("", updates);
    NonBlankLast(Again(kept, updates), Again(w, updates));
  }

  lemma NonBlankLast(a: seq<string>, b: seq<string>)
    requires |b| == |a| + 1 && b[..|a|] == a && IsBlank(b[|a|])
    ensures NonBlank(b) == NonBlank(a)
  {
  }

  lemma SplitJoinNonBlank(lines: seq<string>)
    requires Without(lines, LF)
    ensures NonBlank(Split(Join(lines, LF), LF)) == NonBlank(lines)
  {
    if lines == [] {
      assert Split("", LF) == [""];
      assert NonBlank([""]) == NonBlank([]);
    } else {
      SplitJoin(lines, LF);
    }
  }

  /** How the i-th line written fares in a second application. */
  lemma AgainAt(lines: seq<string>, updates: map<string, string>, keys: seq<string>, i: nat)
    requires WellFormed(updates) && AreMissing(keys, lines, updates)
    requires i < |WrittenLines(lines, updates, keys)|
    ensures var w := WrittenLines(lines, updates, keys)[i];
      && (IsBlank(w) <==> IsBlank(Rewrite(DropCR(w), updates)))
      && (IsBlank(w) || w == Rewrite(DropCR(w), updates) <==> !(i < |lines| && KeepsCR(lines[i], updates)))
  {
    if i < |lines| {
      RewriteAgain(lines[i], updates);
    } else {
      assert keys[i - |lines|] in keys;
      AssignmentAgain(keys[i - |lines|], updates);
    }
  }

  lemma AgainText(lines: seq<string>, updates: map<string, string>, keys: seq<string>)
    requires WellFormed(updates) && AreMissing(keys, lines, updates)
    ensures var w := WrittenLines(lines, updates, keys);
      && (forall i | 0 <= i < |w| :: IsBlank(w[i]) <==> IsBlank(Again(w, updates)[i]))
      && (SameText(w, Again(w, updates)) <==> forall i | 0 <= i < |lines| :: !KeepsCR(lines[i], updates))
  {
    var w := WrittenLines(lines, updates, keys);
    var again := Again(w, updates);
    forall i | 0 <= i < |w|
      ensures IsBlank(w[i]) <==> IsBlank(again[i])
      ensures IsBlank(w[i]) || w[i] == again[i] <==> !(i < |lines| && KeepsCR(lines[i], updates))
    {
      AgainAt(lines, updates, keys, i);
    }
    if SameText(w, again) {
      assert forall i | 0 <= i < |lines| :: IsBlank(w[i]) || w[i] == again[i];
    }
  }

  /** A second application changes no non-blank line exactly when the first one
      copied no text line ending in a carriage return. */
  lemma SecondWriteStable(content: string, updates: map<string, string>)
    requires WellFormed(updates)
    ensures var first := Written(ScanLines(content), updates);
      var second := Written(ScanLines(first), updates);
      (NonBlank(Split(second, LF)) == NonBlank(Split(first, LF))) <==>
      forall i | 0 <= i < |ScanLines(content)| :: !KeepsCR(ScanLines(content)[i], updates)
  {
    var lines := ScanLines(content);
    var first := Written(lines, updates);
    var scanned := ScanLines(first);
    var keys := MissingKeys(lines, updates);
    var w := WrittenLines(lines, updates, keys);
    WrittenLinesWithoutLF(lines, updates, keys);
    WrittenLinesWithoutLF(scanned, updates, MissingKeys(scanned, updates));
    NothingMissing(lines, updates);
    assert WrittenLines(scanned, updates, MissingKeys(scanned, updates)) == Rewritten(scanned, updates);
    SplitJoinNonBlank(w);
    SplitJoinNonBlank(Rewritten(scanned, updates));
    RewriteScanned(w, updates);
    AgainText(lines, updates, keys);
    NonBlankSame(w, Again(w, updates));
  }

  /** The carriage-return case does occur: a second application that updates
      nothing changes the one line of this file. */
  lemma CarriageReturnKept()
    ensures var first := Written(ScanLines("x\r\r\n"), map[]);
      && first == "x\r" && KeepsCR("x\r", map[])
      && Written(ScanLines(first), map[]) == "x"
  {
    ScanExample();
    assert "x\r" == "" + "x" + "\r";
    TrimUnique("", "x", "\r");
    NothingToUpdate("x\r");
    SplitAtom("x\r", LF);
    assert ScanLines("x\r") == ["x"] by {
      assert DropCR("x\r") == "x";
    }
    NothingToUpdate("x");
  }

  lemma NothingToUpdate(line: string)
    ensures Written([line], map[]) == line
  {
    var keys := MissingKeys([line], map[]);
    assert forall key :: key !in keys;
    EmptyOrSome(keys);
    RewriteCases(line, map[]);
    assert WrittenLines([line], map[], keys) == [line];
  }

  lemma EmptyOrSome(keys: seq<string>)
    ensures keys == [] || exists key :: key in keys
  {
    if keys != [] {
      assert keys[0] in keys;
    }
  }

  lemma ScanExample()
    ensures ScanLines("x\r\r\n") == ["x\r"]
  {
    var raw := "x\r\r";
    assert "x\r\r\n" == raw + [LF] + "";
    SplitCons(raw, "", LF);
    SplitAtom("", LF);
    assert ([raw] + [""])[..1] == [raw];
    assert DropCR(raw) == "x\r";
  }
}
