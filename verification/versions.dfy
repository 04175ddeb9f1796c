/** The version grammar (pkg/releasefinder/release_finder.go). A prerelease may
    follow its patch number without the hyphen that section 9 of Semantic
    Versioning 2.0.0 asks for. */
module Versions {
  import opened Text

  /** The largest int of a 64-bit build. */
  const MaxInt: nat := 0x7fff_ffff_ffff_ffff

  /** Full pins a tag, Prefix selects a line of releases; both are empty for
      the latest release. */
  datatype NormalizedTag = NormalizedTag(full: string, prefix: string)

  // ------------------------------------------------------------ scanning

  predicate IsDigit(c: char) {
    '0' <= c <= '9'
  }

  predicate IsVersionChar(c: char) {
    IsDigit(c) || c == '.'
  }

  /** How many characters the first group of ^([0-9.]*)(.*)$ takes. */
  function VersionLength(s: string): (n: nat)
    ensures n <= |s|
    ensures forall i | 0 <= i < n :: IsVersionChar(s[i])
    ensures n < |s| ==> !IsVersionChar(s[n])
  {
    if s != "" && IsVersionChar(s[0]) then 1 + VersionLength(s[1..]) else 0
  }

  /** The two groups; a line break after the first leaves no match. */
  function SplitVersion(s: string): Option<(string, string)> {
    var n := VersionLength(s);
    if LF in s[n..] then None else Some((s[..n], s[n..]))
  }

  function StripV(s: string): string {
    if s != "" && (s[0] == 'v' || s[0] == 'V') then s[1..] else s
  }

  predicate NoneEmpty(parts: seq<string>) {
    forall i | 0 <= i < |parts| :: parts[i] != ""
  }

  /** One or two numbers select a line of releases and take no suffix. */
  function FromParts(parts: seq<string>, suffix: string): Option<NormalizedTag> {
    if !NoneEmpty(parts) then None
    else if |parts| == 1 then
      if suffix != "" then None else Some(NormalizedTag("", "v" + parts[0] + "."))
    else if |parts| == 2 then
      if suffix != "" then None else Some(NormalizedTag("", "v" + parts[0] + "." + parts[1] + "."))
    else if |parts| == 3 then
      Some(NormalizedTag("v" + parts[0] + "." + parts[1] + "." + parts[2] + suffix, ""))
    else None
  }

  /** None is an invalid version. */
  function NormalizeTag(input: string): Option<NormalizedTag> {
    var trimmed := TrimSpace(input);
    if trimmed == "" then Some(NormalizedTag("", ""))
    else match SplitVersion(StripV(trimmed))
      case None => None
      case Some((version, suffix)) =>
        if version == "" then None else FromParts(Split(version, '.'), suffix)
  }

  predicate HasOtherChar(s: string) {
    exists i | 0 <= i < |s| :: !IsVersionChar(s[i])
  }

  predicate HasPrereleaseSuffix(t: NormalizedTag) {
    t.full != "" && HasOtherChar(if t.full[0] == 'v' then t.full[1..] else t.full)
  }

  predicate IsMajorV3(t: NormalizedTag) {
    if t.full != "" then t.full == "v3" || HasPrefix(t.full, "v3.")
    else t.prefix != "" && HasPrefix(t.prefix, "v3.")
  }

  /** The value of a string of decimal digits. */
  function Decimal(s: string): nat {
    if s == "" then 0
    else Decimal(s[..|s| - 1]) * 10 + if IsDigit(s[|s| - 1]) then s[|s| - 1] as nat - '0' as nat else 0
  }

  /** strconv.Atoi on strings of digits: empty or too large is an error. */
  function Atoi(s: string): Option<nat> {
    if s == "" || Decimal(s) > MaxInt then None else Some(Decimal(s))
  }

  predicate IsAtLeastV4_2(tag: string) {
    match SplitVersion(StripV(TrimSpace(tag)))
    case None => false
    case Some((version, _)) =>
      var trimmed := if version != "" && version[|version| - 1] == '.' then version[..|version| - 1] else version;
      trimmed != "" && PartsAtLeastV4_2(Split(trimmed, '.'))
  }

  predicate PartsAtLeastV4_2(parts: seq<string>) {
    |parts| >= 2 &&
    match (Atoi(parts[0]), Atoi(parts[1]))
    case (Some(major), Some(minor)) => major > 4 || (major == 4 && minor >= 2)
    case _ => false
  }

  // ---------------------------------------------------- shape of full tags

  predicate IsNumber(s: string) {
    s != "" && forall i | 0 <= i < |s| :: IsDigit(s[i])
  }

  /** A prerelease suffix: no line break, no space at its end, and not
      continuing the version. */
  predicate IsSuffix(s: string) {
    s == "" || (!IsVersionChar(s[0]) && LF !in s && !IsSpace(s[|s| - 1]))
  }

  function Version3(a: string, b: string, c: string): string {
    a + "." + b + "." + c
  }

  function FullTag(a: string, b: string, c: string, suffix: string): string {
    "v" + Version3(a, b, c) + suffix
  }

  predicate IsParsed(a: string, b: string, c: string, suffix: string) {
    IsNumber(a) && IsNumber(b) && IsNumber(c) && IsSuffix(suffix)
  }

  lemma {:induction false} VersionLengthConcat(v: string, suffix: string)
    requires forall i | 0 <= i < |v| :: IsVersionChar(v[i])
    requires suffix == "" || !IsVersionChar(suffix[0])
    ensures VersionLength(v + suffix) == |v|
  {
    if v != "" {
      assert (v + suffix)[1..] == v[1..] + suffix;
      VersionLengthConcat(v[1..], suffix);
    } else {
      assert v + suffix == suffix;
    }
  }

  lemma NumberHasNoDot(s: string)
    requires IsNumber(s)
    ensures '.' !in s
  {
  }

  lemma SplitVersion3(a: string, b: string, c: string)
    requires IsNumber(a) && IsNumber(b) && IsNumber(c)
    ensures Split(Version3(a, b, c), '.') == [a, b, c]
  {
    NumberHasNoDot(a);
    NumberHasNoDot(b);
    NumberHasNoDot(c);
    assert Version3(a, b, c) == a + ['.'] + (b + ['.'] + c);
    SplitCons(a, b + ['.'] + c, '.');
    SplitCons(b, c, '.');
    SplitAtom(c, '.');
  }

  lemma ScanFull(a: string, b: string, c: string, suffix: string)
    requires IsParsed(a, b, c, suffix)
    ensures TrimSpace(FullTag(a, b, c, suffix)) == FullTag(a, b, c, suffix)
    ensures StripV(FullTag(a, b, c, suffix)) == Version3(a, b, c) + suffix
    ensures SplitVersion(Version3(a, b, c) + suffix) == Some((Version3(a, b, c), suffix))
  {
    var v, full := Version3(a, b, c), FullTag(a, b, c, suffix);
    VersionLengthConcat(v, suffix);
    assert (v + suffix)[..|v|] == v && (v + suffix)[|v|..] == suffix;
    assert full[0] == 'v' && full[1..] == v + suffix;
    assert full[|full| - 1] == if suffix == "" then c[|c| - 1] else suffix[|suffix| - 1];
    TrimOfTrimmed(full);
  }

  /** Every number.number.number suffix, with or without its v, is a full tag
      that normalises to itself. */
  lemma NormalizeFull(a: string, b: string, c: string, suffix: string)
    requires IsParsed(a, b, c, suffix)
    ensures NormalizeTag(FullTag(a, b, c, suffix)) == Some(NormalizedTag(FullTag(a, b, c, suffix), ""))
  {
    ScanFull(a, b, c, suffix);
    SplitVersion3(a, b, c);
    FromThreeParts(a, b, c, suffix);
  }

  lemma FromThreeParts(a: string, b: string, c: string, suffix: string)
    requires a != "" && b != "" && c != ""
    ensures FromParts([a, b, c], suffix) == Some(NormalizedTag(FullTag(a, b, c, suffix), ""))
  {
    assert NoneEmpty([a, b, c]);
    assert "v" + Version3(a, b, c) + suffix == "v" + a + "." + b + "." + c + suffix;
  }

  ghost predicate AllNumbers(parts: seq<string>) {
    forall i | 0 <= i < |parts| :: IsNumber(parts[i])
  }

  lemma PartIsNumber(part: string)
    requires part != "" && '.' !in part && forall i | 0 <= i < |part| :: IsVersionChar(part[i])
    ensures IsNumber(part)
  {
  }

  lemma NoneEmptyCons(first: string, rest: seq<string>)
    requires NoneEmpty([first] + rest)
    ensures first != "" && NoneEmpty(rest)
  {
    var parts := [first] + rest;
    assert parts[0] == first && forall j | 0 <= j < |rest| :: rest[j] == parts[j + 1];
  }

  lemma {:induction false} PartsAreNumbers(version: string)
    requires forall i | 0 <= i < |version| :: IsVersionChar(version[i])
    requires NoneEmpty(Split(version, '.'))
    ensures AllNumbers(Split(version, '.'))
    decreases |version|
  {
    var i := IndexOf(version, '.');
    SplitAt(version, '.');
    if i < |version| {
      var first, rest := version[..i], version[i + 1..];
      NoneEmptyCons(first, Split(rest, '.'));
      PartsAreNumbers(rest);
      PartIsNumber(first);
    } else {
      assert [version][0] == version;
      PartIsNumber(version);
    }
  }

  /** What NormalizeTag accepts: nothing, one or two numbers, or three numbers
      and a suffix. */
  lemma NormalizedShape(input: string) returns (a: string, b: string, c: string, suffix: string)
    requires NormalizeTag(input).Some?
    ensures var t := NormalizeTag(input).value;
      || (t == NormalizedTag("", "") && TrimSpace(input) == "")
      || (IsNumber(a) && t == NormalizedTag("", "v" + a + "."))
      || (IsNumber(a) && IsNumber(b) && t == NormalizedTag("", "v" + a + "." + b + "."))
      || (IsParsed(a, b, c, suffix) && t == NormalizedTag(FullTag(a, b, c, suffix), ""))
  {
    a, b, c, suffix := "", "", "", "";
    var trimmed := TrimSpace(input);
    if trimmed != "" {
      var version;
      version, suffix := ScanShape(input);
      PartsAreNumbers(version);
      var parts := Split(version, '.');
      a := parts[0];
      b := if |parts| > 1 then parts[1] else "";
      c := if |parts| > 2 then parts[2] else "";
      PartsShape(parts, suffix);
    }
  }

  lemma ScanShape(input: string) returns (version: string, suffix: string)
    requires NormalizeTag(input).Some? && TrimSpace(input) != ""
    ensures forall i | 0 <= i < |version| :: IsVersionChar(version[i])
    ensures IsSuffix(suffix)
    ensures NormalizeTag(input) == FromParts(Split(version, '.'), suffix)
    ensures NoneEmpty(Split(version, '.'))
  {
    var _, _ := TrimSplit(input);
    var trimmed := TrimSpace(input);
    var stripped := StripV(trimmed);
    var n := VersionLength(stripped);
    version, suffix := stripped[..n], stripped[n..];
    if suffix != "" {
      assert suffix[0] == stripped[n] && suffix[|suffix| - 1] == trimmed[|trimmed| - 1];
    }
  }

  lemma PartsShape(parts: seq<string>, suffix: string)
    requires FromParts(parts, suffix).Some? && parts != []
    ensures var t := FromParts(parts, suffix).value;
      || (|parts| == 1 && t == NormalizedTag("", "v" + parts[0] + "."))
      || (|parts| == 2 && t == NormalizedTag("", "v" + parts[0] + "." + parts[1] + "."))
      || (|parts| == 3 && t == NormalizedTag(FullTag(parts[0], parts[1], parts[2], suffix), ""))
  {
    if |parts| == 3 {
      assert parts == [parts[0], parts[1], parts[2]];
      FromThreeParts(parts[0], parts[1], parts[2], suffix);
    }
  }

  // ------------------------------------------------------- what is accepted

  lemma ScanSpelled(pre: string, v: string, version: string, suffix: string, post: string)
    requires AllSpace(pre) && AllSpace(post) && (v == "" || v == "v" || v == "V")
    requires version != "" && IsDigit(version[0]) && IsDigit(version[|version| - 1])
    requires (forall i | 0 <= i < |version| :: IsVersionChar(version[i])) && IsSuffix(suffix)
    ensures NormalizeTag(pre + (v + version + suffix) + post) == FromParts(Split(version, '.'), suffix)
  {
    var t := v + version + suffix;
    TrimSpelled(v, version, suffix);
    TrimUnique(pre, t, post);
    StripSpelled(v, version, suffix);
    SplitSpelled(version, suffix);
  }

  lemma TrimSpelled(v: string, version: string, suffix: string)
    requires v == "" || v == "v" || v == "V"
    requires version != "" && IsDigit(version[0]) && IsDigit(version[|version| - 1]) && IsSuffix(suffix)
    ensures v + version + suffix != "" && Trimmed(v + version + suffix)
  {
    var t := v + version + suffix;
    assert t[0] == if v == "" then version[0] else v[0];
    assert t[|t| - 1] == if suffix == "" then version[|version| - 1] else suffix[|suffix| - 1];
  }

  lemma StripSpelled(v: string, version: string, suffix: string)
    requires v == "" || v == "v" || v == "V"
    requires version != "" && IsDigit(version[0])
    ensures StripV(v + version + suffix) == version + suffix
  {
    var t := v + version + suffix;
    if v == "" {
      assert t == version + suffix && t[0] == version[0];
    } else {
      assert t[0] == v[0] && t[1..] == version + suffix;
    }
  }

  lemma SplitSpelled(version: string, suffix: string)
    requires (forall i | 0 <= i < |version| :: IsVersionChar(version[i])) && IsSuffix(suffix)
    ensures SplitVersion(version + suffix) == Some((version, suffix))
  {
    VersionLengthConcat(version, suffix);
    var body := version + suffix;
    assert body[..|version|] == version && body[|version|..] == suffix;
  }

  /** One number selects a major version and takes no suffix. */
  lemma MajorAccepted(pre: string, v: string, a: string, suffix: string, post: string)
    requires AllSpace(pre) && AllSpace(post) && (v == "" || v == "v" || v == "V")
    requires IsNumber(a) && IsSuffix(suffix)
    ensures NormalizeTag(pre + (v + a + suffix) + post) ==
      if suffix == "" then Some(NormalizedTag("", "v" + a + ".")) else None
  {
    ScanSpelled(pre, v, a, suffix, post);
    NumberHasNoDot(a);
    SplitAtom(a, '.');
    assert NoneEmpty([a]);
  }

  /** Two numbers select a minor version and take no suffix. */
  lemma MinorAccepted(pre: string, v: string, a: string, b: string, suffix: string, post: string)
    requires AllSpace(pre) && AllSpace(post) && (v == "" || v == "v" || v == "V")
    requires IsNumber(a) && IsNumber(b) && IsSuffix(suffix)
    ensures NormalizeTag(pre + (v + (a + "." + b) + suffix) + post) ==
      if suffix == "" then Some(NormalizedTag("", "v" + a + "." + b + ".")) else None
  {
    var version := a + "." + b;
    assert version[0] == a[0] && version[|version| - 1] == b[|b| - 1];
    ScanSpelled(pre, v, version, suffix, post);
    NumberHasNoDot(a);
    NumberHasNoDot(b);
    SplitCons(a, b, '.');
    SplitAtom(b, '.');
    assert version == a + ['.'] + b;
    assert NoneEmpty([a, b]);
  }

  /** Three numbers pin a release, with their suffix. */
  lemma FullAccepted(pre: string, v: string, a: string, b: string, c: string, suffix: string, post: string)
    requires AllSpace(pre) && AllSpace(post) && (v == "" || v == "v" || v == "V")
    requires IsParsed(a, b, c, suffix)
    ensures NormalizeTag(pre + (v + (a + "." + b + "." + c) + suffix) + post) ==
      Some(NormalizedTag("v" + (a + "." + b + "." + c) + suffix, ""))
  {
    var version := Version3(a, b, c);
    assert version[0] == a[0] && version[|version| - 1] == c[|c| - 1];
    ScanSpelled(pre, v, version, suffix, post);
    SplitVersion3(a, b, c);
    FromThreeParts(a, b, c, suffix);
  }

  /** A tag is in the v3 line exactly when its first number is written 3. */
  lemma MajorV3Meaning(a: string, b: string, c: string, suffix: string)
    requires IsParsed(a, b, c, suffix)
    ensures IsMajorV3(NormalizedTag("v" + (a + "." + b + "." + c) + suffix, "")) <==> a == "3"
    ensures IsMajorV3(NormalizedTag("", "v" + a + "." + b + ".")) <==> a == "3"
    ensures IsMajorV3(NormalizedTag("", "v" + a + ".")) <==> a == "3"
    ensures !IsMajorV3(NormalizedTag("", ""))
  {
    FullStartsWithNumber(a, b, c, suffix);
    MajorPrefixSelects("3", a, b, c, suffix);
    assert "v" + "3" + "." == "v3.";
    V3Prefix(a, b + ".");
    V3Prefix(a, "");
    assert "v" + a + "." + (b + ".") == "v" + a + "." + b + ".";
    assert "v" + a + "." + "" == "v" + a + ".";
  }

  lemma V3Prefix(a: string, rest: string)
    requires IsNumber(a)
    ensures HasPrefix("v" + a + "." + rest, "v3.") <==> a == "3"
  {
    DottedPrefix("3", a, rest);
    VPrefix("3" + ".", a + "." + rest);
    assert "v" + ("3" + ".") == "v3.";
    assert "v" + (a + "." + rest) == "v" + a + "." + rest;
  }

  // ------------------------------------------------------------- theorems

  /** A full tag that NormalizeTag produced normalises to itself. */
  lemma NormalizeIdempotent(input: string)
    requires NormalizeTag(input).Some? && NormalizeTag(input).value.full != ""
    ensures NormalizeTag(NormalizeTag(input).value.full) == NormalizeTag(input)
  {
    var a, b, c, suffix := NormalizedShape(input);
    NormalizeFull(a, b, c, suffix);
  }

  /** HasPrereleaseSuffix tells exactly whether a suffix was parsed. */
  lemma PrereleaseIffSuffix(a: string, b: string, c: string, suffix: string)
    requires IsParsed(a, b, c, suffix)
    ensures HasPrereleaseSuffix(NormalizedTag(FullTag(a, b, c, suffix), "")) <==> suffix != ""
  {
    var v := Version3(a, b, c);
    var s := FullTag(a, b, c, suffix)[1..];
    assert s == v + suffix && FullTag(a, b, c, suffix)[0] == 'v';
    assert forall i | 0 <= i < |v| :: IsVersionChar(v[i]);
    if suffix == "" {
      assert s == v;
    } else {
      assert s[|v|] == suffix[0] && !IsVersionChar(s[|v|]);
      assert HasOtherChar(s);
    }
  }

  lemma DottedPrefix(m: string, a: string, rest: string)
    requires IsNumber(m) && IsNumber(a)
    ensures HasPrefix(a + "." + rest, m + ".") <==> m == a
  {
    var s := a + "." + rest;
    NumberHasNoDot(m);
    NumberHasNoDot(a);
    if m + "." <= s {
      assert s == m + ['.'] + s[|m| + 1..];
      IndexOfConcat(m, '.', s[|m| + 1..]);
      assert s == a + ['.'] + rest;
      IndexOfConcat(a, '.', rest);
      assert m == s[..|m|] && a == s[..|a|];
    }
  }

  /** The prefix for a major version is a prefix of exactly its own tags. */
  lemma MajorPrefixSelects(m: string, a: string, b: string, c: string, suffix: string)
    requires IsNumber(m) && IsParsed(a, b, c, suffix)
    ensures HasPrefix(FullTag(a, b, c, suffix), "v" + m + ".") <==> m == a
  {
    var rest := b + "." + c + suffix;
    assert FullTag(a, b, c, suffix) == "v" + (a + "." + rest);
    VPrefix(m + ".", a + "." + rest);
    assert "v" + m + "." == "v" + (m + ".");
    DottedPrefix(m, a, rest);
  }

  /** And so is the prefix for a minor version: 4.1 never selects 4.10. */
  lemma MinorPrefixSelects(m: string, n: string, a: string, b: string, c: string, suffix: string)
    requires IsNumber(m) && IsNumber(n) && IsParsed(a, b, c, suffix)
    ensures HasPrefix(FullTag(a, b, c, suffix), "v" + m + "." + n + ".") <==> m == a && n == b
  {
    var rest := c + suffix;
    var tag := a + "." + (b + "." + rest);
    assert FullTag(a, b, c, suffix) == "v" + tag;
    assert "v" + m + "." + n + "." == "v" + (m + "." + (n + "."));
    VPrefix(m + "." + (n + "."), tag);
    DottedPrefix(m, a, b + "." + rest);
    DottedPrefix(n, b, rest);
    if m + "." + (n + ".") <= tag {
      assert tag[..|m| + 1] == (m + "." + (n + "."))[..|m| + 1] == m + ".";
    }
    if m == a {
      SamePrefix(m + ".", n + ".", b + "." + rest);
      assert tag == m + "." + (b + "." + rest);
    }
  }

  lemma VPrefix(p: string, s: string)
    ensures "v" + p <= "v" + s <==> p <= s
  {
    SamePrefix("v", p, s);
  }

  lemma SamePrefix(head: string, p: string, s: string)
    ensures head + p <= head + s <==> p <= s
  {
    assert (head + p)[|head|..] == p && (head + s)[|head|..] == s;
    if p <= s {
      assert head + s == head + p + s[|p|..];
    }
    if head + p <= head + s {
      assert p == (head + s)[|head|..|head| + |p|] == s[..|p|];
    }
  }

  /** The order of tags by major and minor number. */
  predicate VersionAtLeast(major: nat, minor: nat, major': nat, minor': nat) {
    major > major' || (major == major' && minor >= minor')
  }

  /** On full tags IsAtLeastV4_2 compares decimal values, whatever the suffix, as
      long as both numbers fit an int. */
  lemma AtLeastV4_2Meaning(a: string, b: string, c: string, suffix: string)
    requires IsParsed(a, b, c, suffix)
    ensures IsAtLeastV4_2(FullTag(a, b, c, suffix)) <==>
      && Decimal(a) <= 0x7fff_ffff_ffff_ffff && Decimal(b) <= 0x7fff_ffff_ffff_ffff
      && VersionAtLeast(Decimal(a), Decimal(b), 4, 2)
  {
    ScanFull(a, b, c, suffix);
    SplitVersion3(a, b, c);
    var v := Version3(a, b, c);
    assert v[|v| - 1] == c[|c| - 1] && v[|v| - 1] != '.';
    assert IsAtLeastV4_2(FullTag(a, b, c, suffix)) == PartsAtLeastV4_2([a, b, c]);
    PartsMeaning(a, b, c);
  }

  lemma PartsMeaning(a: string, b: string, c: string)
    requires a != "" && b != ""
    ensures PartsAtLeastV4_2([a, b, c]) <==>
      Decimal(a) <= MaxInt && Decimal(b) <= MaxInt && VersionAtLeast(Decimal(a), Decimal(b), 4, 2)
  {
  }

  /** It never turns false for a newer version. */
  lemma AtLeastV4_2Monotone(a: string, b: string, c: string, suffix: string,
                            a': string, b': string, c': string, suffix': string)
    requires IsParsed(a, b, c, suffix) && IsParsed(a', b', c', suffix')
    requires Decimal(a') <= MaxInt && Decimal(b') <= MaxInt
    requires VersionAtLeast(Decimal(a'), Decimal(b'), Decimal(a), Decimal(b))
    requires IsAtLeastV4_2(FullTag(a, b, c, suffix))
    ensures IsAtLeastV4_2(FullTag(a', b', c', suffix'))
  {
    AtLeastV4_2Meaning(a, b, c, suffix);
    AtLeastV4_2Meaning(a', b', c', suffix');
  }

  /** And it is false of everything NormalizeTag places in the v3 line. */
  lemma MajorV3IsNotV4_2(input: string)
    requires NormalizeTag(input).Some? && IsMajorV3(NormalizeTag(input).value)
    ensures !IsAtLeastV4_2(NormalizeTag(input).value.full)
  {
    var t := NormalizeTag(input).value;
    if t.full == "" {
      assert TrimSpace("") == "";
    } else {
      var a, b, c, suffix := NormalizedShape(input);
      FullStartsWithNumber(a, b, c, suffix);
      MajorPrefixSelects("3", a, b, c, suffix);
      assert "v" + "3" + "." == "v3.";
      AtLeastV4_2Meaning(a, b, c, suffix);
      assert "3"[..0] == "" && Decimal("") == 0;
      assert Decimal("3") == 3;
    }
  }

  lemma FullStartsWithNumber(a: string, b: string, c: string, suffix: string)
    requires IsParsed(a, b, c, suffix)
    ensures FullTag(a, b, c, suffix) != "v3"
  {
    assert |FullTag(a, b, c, suffix)| > 2;
  }
}
