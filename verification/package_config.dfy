/** The layered package configuration (pkg/package_manager/pkgconfig/config.go). */
module PackageConfig {
  import opened Text
  import Order

  /** What a caller asks for: the package manager and the operating system. */
  datatype Request = Request(manager: string, distribution: string, version: string, codename: string, platform: string)

  datatype Step = Step(conditions: seq<string>, commands: seq<string>)

  datatype Package = Package(
    name: string, dependencies: seq<string>, replaceWith: seq<string>, lookupPaths: seq<string>, pathEnv: seq<string>,
    preInstall: seq<Step>, install: seq<Step>, postInstall: seq<Step>)

  type Packages = map<string, Package>

  /** The embedded files by name: malformed, or a list of packages. */
  datatype Body = Malformed | Listed(packages: seq<Package>)
  datatype Embedded = Embedded(files: map<string, Body>, toLower: string -> string)

  // ----------------------------------------------------------- cache key

  function Components(r: Request): seq<string> {
    [r.manager, r.distribution, r.version, r.codename, r.platform]
  }

  function BuildCacheKey(r: Request): string {
    r.manager + "_" + r.distribution + "_" + r.version + "_" + r.codename + "_" + r.platform
  }

  predicate UnderscoreFree(r: Request) {
    Without(Components(r), '_')
  }

  lemma KeyIsJoin(r: Request)
    ensures BuildCacheKey(r) == Join(Components(r), '_')
  {
    var c4 := [r.platform];
    var c3, c2, c1 := [r.codename] + c4, [r.version] + ([r.codename] + c4),
      [r.distribution] + ([r.version] + ([r.codename] + c4));
    JoinCons(r.codename, c4, '_');
    JoinCons(r.version, c3, '_');
    JoinCons(r.distribution, c2, '_');
    JoinCons(r.manager, c1, '_');
    assert Components(r) == [r.manager] + c1;
    assert BuildCacheKey(r) ==
      r.manager + "_" + (r.distribution + "_" + (r.version + "_" + (r.codename + "_" + r.platform)));
  }

  /** Requests without underscores have keys of their own. */
  lemma KeyInjective(a: Request, b: Request)
    requires UnderscoreFree(a) && UnderscoreFree(b)
    ensures BuildCacheKey(a) == BuildCacheKey(b) <==> a == b
  {
    KeyIsJoin(a);
    KeyIsJoin(b);
    SplitJoin(Components(a), '_');
    SplitJoin(Components(b), '_');
    if BuildCacheKey(a) == BuildCacheKey(b) {
      var ca, cb := Components(a), Components(b);
      assert ca == cb;
      assert ca[0] == cb[0] && ca[1] == cb[1] && ca[2] == cb[2] && ca[3] == cb[3] && ca[4] == cb[4];
    }
  }

  // ------------------------------------------------------------ commands

  /** strings.ReplaceAll for a non-empty old text. */
  function ReplaceAll(s: string, from: string, to: string): string
    requires from != ""
    decreases |s|
  {
    if s == "" then ""
    else if from <= s then to + ReplaceAll(s[|from|..], from, to)
    else [s[0]] + ReplaceAll(s[1..], from, to)
  }

  function ReplaceDistributionVariables(input: string, r: Request): string {
    var s1 := ReplaceAll(input, "{{distname}}", r.distribution);
    var s2 := ReplaceAll(s1, "{{distversion}}", r.version);
    var s3 := ReplaceAll(s2, "{{codename}}", r.codename);
    ReplaceAll(s3, "{{architecture}}", r.platform)
  }

  /** A command text as its author meant it: literal text and placeholders. */
  datatype Piece = Literal(text: string) | Name | Version | Codename | Architecture

  function PieceText(p: Piece): string {
    match p
    case Literal(text) => text
    case Name => "{{distname}}"
    case Version => "{{distversion}}"
    case Codename => "{{codename}}"
    case Architecture => "{{architecture}}"
  }

  function PieceValue(p: Piece, r: Request): string {
    match p
    case Literal(text) => text
    case Name => r.distribution
    case Version => r.version
    case Codename => r.codename
    case Architecture => r.platform
  }

  function Written(pieces: seq<Piece>): string {
    if pieces == [] then "" else PieceText(pieces[0]) + Written(pieces[1..])
  }

  function Filled(pieces: seq<Piece>, r: Request): string {
    if pieces == [] then "" else PieceValue(pieces[0], r) + Filled(pieces[1..], r)
  }

  predicate BraceFree(pieces: seq<Piece>) {
    forall i | 0 <= i < |pieces| && pieces[i].Literal? :: '{' !in pieces[i].text
  }

  /** The pieces once all placeholders of one kind are filled in. */
  function FillOne(pieces: seq<Piece>, p: Piece, value: string): (filled: seq<Piece>)
    ensures |filled| == |pieces|
    ensures forall i | 0 <= i < |pieces| :: filled[i] == if pieces[i] == p then Literal(value) else pieces[i]
  {
    seq(|pieces|, i requires 0 <= i < |pieces| => if pieces[i] == p then Literal(value) else pieces[i])
  }

  lemma {:induction false} ReplaceSkips(skip: string, rest: string, from: string, to: string)
    requires from != "" && from[0] !in skip
    ensures ReplaceAll(skip + rest, from, to) == skip + ReplaceAll(rest, from, to)
    decreases |skip|
  {
    if skip == "" {
      assert skip + rest == rest;
    } else {
      var s := skip + rest;
      assert s[0] == skip[0] && skip[0] in skip && !(from <= s);
      assert s[1..] == skip[1..] + rest;
      ReplaceSkips(skip[1..], rest, from, to);
      assert [skip[0]] + (skip[1..] + ReplaceAll(rest, from, to)) == skip + ReplaceAll(rest, from, to);
    }
  }

  lemma ReplaceHits(rest: string, from: string, to: string)
    requires from != ""
    ensures ReplaceAll(from + rest, from, to) == to + ReplaceAll(rest, from, to)
  {
    assert (from + rest)[|from|..] == rest;
  }

  /** No placeholder is found inside another one. */
  lemma ReplacePasses(other: string, rest: string, from: string, to: string)
    requires |other| > 2 && |from| > 2 && other[..2] == "{{" == from[..2] && '{' !in other[2..]
    requires from[2] != '{'
    requires exists k :: 2 <= k < |from| && k < |other| && from[k] != other[k]
    ensures ReplaceAll(other + rest, from, to) == other + ReplaceAll(rest, from, to)
  {
    var tail := other[2..] + rest;
    var k :| 2 <= k < |from| && k < |other| && from[k] != other[k];
    assert other[0] == other[..2][0] && other[1] == other[..2][1];
    assert other + rest == ['{'] + (['{'] + tail);
    assert (other + rest)[k] == other[k];
    ReplaceStep('{', ['{'] + tail, from, to);
    assert from[1] == from[..2][1] && tail[0] == other[2] && other[2] in other[2..];
    assert (['{'] + tail)[1] == tail[0];
    ReplaceStep('{', tail, from, to);
    assert from[0] == from[..2][0];
    ReplaceSkips(other[2..], rest, from, to);
    assert other == ['{'] + (['{'] + other[2..]);
    Prepend(other[2..], ReplaceAll(rest, from, to));
  }

  lemma ReplaceStep(c: char, rest: string, from: string, to: string)
    requires from != "" && !(from <= [c] + rest)
    ensures ReplaceAll([c] + rest, from, to) == [c] + ReplaceAll(rest, from, to)
  {
    assert ([c] + rest)[1..] == rest;
  }

  lemma Prepend(a: string, b: string)
    ensures ['{'] + (['{'] + (a + b)) == ['{'] + (['{'] + a) + b
  {
  }

  lemma NameText()
    ensures |PieceText(Name)| == 12 && PieceText(Name)[..2] == "{{" && '{' !in PieceText(Name)[2..]
    ensures PieceText(Name)[2] == 'd' && PieceText(Name)[6] == 'n'
  {
  }

  lemma VersionText()
    ensures |PieceText(Version)| == 15 && PieceText(Version)[..2] == "{{" && '{' !in PieceText(Version)[2..]
    ensures PieceText(Version)[2] == 'd' && PieceText(Version)[6] == 'v'
  {
  }

  lemma CodenameText()
    ensures |PieceText(Codename)| == 12 && PieceText(Codename)[..2] == "{{" && '{' !in PieceText(Codename)[2..]
    ensures PieceText(Codename)[2] == 'c' && PieceText(Codename)[6] == 'n'
  {
  }

  lemma ArchitectureText()
    ensures |PieceText(Architecture)| == 16 && PieceText(Architecture)[..2] == "{{"
    ensures '{' !in PieceText(Architecture)[2..]
    ensures PieceText(Architecture)[2] == 'a' && PieceText(Architecture)[6] == 'i'
  {
  }

  lemma PieceFilled(head: Piece, rest: string, p: Piece, value: string)
    requires !p.Literal? && (head.Literal? ==> '{' !in head.text)
    ensures ReplaceAll(PieceText(head) + rest, PieceText(p), value) ==
      (if head == p then value else PieceText(head)) + ReplaceAll(rest, PieceText(p), value)
  {
    NameText();
    VersionText();
    CodenameText();
    ArchitectureText();
    assert PieceText(p)[0] == PieceText(p)[..2][0] == '{';
    if head == p {
      ReplaceHits(rest, PieceText(p), value);
    } else if head.Literal? {
      ReplaceSkips(head.text, rest, PieceText(p), value);
    } else {
      var k := if PieceText(p)[2] != PieceText(head)[2] then 2 else 6;
      assert PieceText(p)[k] != PieceText(head)[k];
      ReplacePasses(PieceText(head), rest, PieceText(p), value);
    }
  }

  lemma {:induction false} OneFilled(pieces: seq<Piece>, p: Piece, value: string)
    requires !p.Literal? && BraceFree(pieces)
    ensures ReplaceAll(Written(pieces), PieceText(p), value) == Written(FillOne(pieces, p, value))
  {
    if pieces != [] {
      var rest := pieces[1..];
      OneFilled(rest, p, value);
      PieceFilled(pieces[0], Written(rest), p, value);
      assert FillOne(pieces, p, value)[1..] == FillOne(rest, p, value);
    }
  }

  /** All four kinds filled in, one after the other. */
  function FillAll(pieces: seq<Piece>, r: Request): seq<Piece> {
    FillOne(FillOne(FillOne(FillOne(pieces, Name, r.distribution), Version, r.version),
                    Codename, r.codename), Architecture, r.platform)
  }

  lemma {:induction false} AllFilled(pieces: seq<Piece>, r: Request)
    ensures Written(FillAll(pieces, r)) == Filled(pieces, r)
  {
    if pieces != [] {
      AllFilled(pieces[1..], r);
      assert FillAll(pieces, r)[1..] == FillAll(pieces[1..], r);
    }
  }

  /** Each placeholder becomes the part of the request it names, and the text
      around them stays, as long as neither holds an opening brace. */
  lemma VariablesReplaced(pieces: seq<Piece>, r: Request)
    requires BraceFree(pieces)
    requires '{' !in r.distribution && '{' !in r.version && '{' !in r.codename
    ensures ReplaceDistributionVariables(Written(pieces), r) == Filled(pieces, r)
  {
    var p1 := FillOne(pieces, Name, r.distribution);
    var p2 := FillOne(p1, Version, r.version);
    var p3 := FillOne(p2, Codename, r.codename);
    OneFilled(pieces, Name, r.distribution);
    OneFilled(p1, Version, r.version);
    OneFilled(p2, Codename, r.codename);
    OneFilled(p3, Architecture, r.platform);
    AllFilled(pieces, r);
  }

  predicate IsGap(c: char) {
    c == ' ' || c == '\t'
  }

  /** Every run of spaces and tabs becomes one space. */
  function Collapse(s: string, afterGap: bool): string {
    if s == "" then ""
    else if IsGap(s[0]) then (if afterGap then "" else " ") + Collapse(s[1..], true)
    else [s[0]] + Collapse(s[1..], false)
  }

  function OneLine(s: string): string {
    ReplaceAll(ReplaceAll(ReplaceAll(s, "\r\n", " "), "\n", " "), "\r", " ")
  }

  function NormalizeCommand(s: string): string {
    TrimSpace(Collapse(OneLine(s), false))
  }

  lemma CollapseStep(done: string, s: string, i: nat, afterGap: bool)
    requires i < |s|
    ensures done + Collapse(s[i..], afterGap) ==
      if IsGap(s[i]) then (if afterGap then done else done + " ") + Collapse(s[i + 1..], true)
      else done + [s[i]] + Collapse(s[i + 1..], false)
  {
    assert s[i..][1..] == s[i + 1..];
    if IsGap(s[i]) {
      var gap := if afterGap then "" else " ";
      assert done + (gap + Collapse(s[i + 1..], true)) == (done + gap) + Collapse(s[i + 1..], true);
      assert done + "" == done;
    } else {
      assert done + ([s[i]] + Collapse(s[i + 1..], false)) == done + [s[i]] + Collapse(s[i + 1..], false);
    }
  }

  /** The loop with its prevSpace flag. */
  method NormalizeCommandLoop(input: string) returns (command: string)
    ensures command == NormalizeCommand(input)
  {
    var s := OneLine(input);
    ghost var whole := Collapse(s, false);
    var normalized := "";
    var prevSpace := false;
    assert s[0..] == s;
    for i := 0 to |s|
      invariant normalized + Collapse(s[i..], prevSpace) == whole
    {
      CollapseStep(normalized, s, i, prevSpace);
      if s[i] == ' ' || s[i] == '\t' {
        if !prevSpace {
          normalized := normalized + " ";
          prevSpace := true;
        }
      } else {
        normalized := normalized + [s[i]];
        prevSpace := false;
      }
    }
    assert s[|s|..] == "" && normalized + "" == normalized;
    command := TrimSpace(normalized);
  }

  /** Single spaces only, and no line break. */
  ghost predicate Normal(s: string) {
    && (forall i | 0 <= i < |s| :: s[i] != '\t' && s[i] != '\n' && s[i] != '\r')
    && (forall i | 0 <= i < |s| - 1 :: s[i] != ' ' || s[i + 1] != ' ')
  }

  lemma {:induction false} ReplaceAllGone(s: string, c: char)
    requires c != ' '
    ensures c !in ReplaceAll(s, [c], " ")
    ensures forall d | d != ' ' && d !in s :: d !in ReplaceAll(s, [c], " ")
    decreases |s|
  {
    if s != "" {
      assert [c] <= s <==> s[0] == c;
      assert |[c]| == 1;
      ReplaceAllGone(s[1..], c);
    }
  }

  lemma {:induction false} ReplaceAllAbsent(s: string, from: string, to: string)
    requires from != "" && from[0] !in s
    ensures ReplaceAll(s, from, to) == s
    decreases |s|
  {
    if s != "" {
      assert s[0] in s;
      if |from| <= |s| {
        assert s[..|from|][0] == s[0];
      }
      ReplaceAllAbsent(s[1..], from, to);
    }
  }

  lemma {:induction false} CollapseNormal(s: string, afterGap: bool)
    requires '\n' !in s && '\r' !in s
    ensures Normal(Collapse(s, afterGap))
    ensures afterGap ==> Collapse(s, true) == "" || Collapse(s, true)[0] != ' '
  {
    if s != "" {
      CollapseNormal(s[1..], IsGap(s[0]));
    }
  }

  lemma {:induction false} CollapseFixed(s: string, afterGap: bool)
    requires Normal(s) && (afterGap ==> s == "" || s[0] != ' ')
    ensures Collapse(s, afterGap) == s
  {
    if s != "" {
      assert forall i | 0 <= i < |s[1..]| :: s[1..][i] == s[i + 1];
      CollapseFixed(s[1..], IsGap(s[0]));
    }
  }

  lemma NormalTrimmed(s: string)
    requires Normal(s)
    ensures Normal(TrimSpace(s))
  {
    var pre, post := TrimSplit(s);
    var t := TrimSpace(s);
    assert forall i | 0 <= i < |t| :: t[i] == s[|pre| + i];
  }

  lemma OneLineHasNoBreaks(s: string)
    ensures '\n' !in OneLine(s) && '\r' !in OneLine(s)
  {
    var s1 := ReplaceAll(s, "\r\n", " ");
    ReplaceAllGone(s1, '\n');
    ReplaceAllGone(ReplaceAll(s1, "\n", " "), '\r');
  }

  /** A command comes out on one line, singly spaced and trimmed, and a second
      normalisation changes nothing. */
  lemma NormalizeIdempotent(s: string)
    ensures Normal(NormalizeCommand(s)) && Trimmed(NormalizeCommand(s))
    ensures NormalizeCommand(NormalizeCommand(s)) == NormalizeCommand(s)
  {
    var r := NormalizeCommand(s);
    OneLineHasNoBreaks(s);
    CollapseNormal(OneLine(s), false);
    NormalTrimmed(Collapse(OneLine(s), false));
    var _, _ := TrimSplit(Collapse(OneLine(s), false));
    ReplaceAllAbsent(r, "\r\n", " ");
    ReplaceAllAbsent(r, "\n", " ");
    ReplaceAllAbsent(r, "\r", " ");
    CollapseFixed(r, false);
    TrimOfTrimmed(r);
  }

  // --------------------------------------------------- words of a command

  predicate IsBlank(c: char) {
    c == ' ' || c == '\t' || c == '\n' || c == '\r'
  }

  function Finished(word: string): seq<string> {
    if word == "" then [] else [word]
  }

  /** The words of a text, cut at blanks and line breaks; `word` is the one begun. */
  function WordsFrom(word: string, s: string): seq<string>
    decreases |s|
  {
    if s == "" then Finished(word)
    else if IsBlank(s[0]) then Finished(word) + WordsFrom("", s[1..])
    else WordsFrom(word + [s[0]], s[1..])
  }

  function Words(s: string): seq<string> {
    WordsFrom("", s)
  }

  lemma {:induction false} BlanksEndWord(word: string, blanks: string, rest: string)
    requires blanks != "" && forall i | 0 <= i < |blanks| :: IsBlank(blanks[i])
    ensures WordsFrom(word, blanks + rest) == Finished(word) + WordsFrom("", rest)
    decreases |blanks|
  {
    assert (blanks + rest)[1..] == blanks[1..] + rest;
    if |blanks| > 1 {
      BlanksEndWord("", blanks[1..], rest);
    } else {
      assert blanks[1..] + rest == rest;
    }
  }

  lemma {:induction false} ReplaceKeepsWords(word: string, s: string, from: string)
    requires from != "" && forall i | 0 <= i < |from| :: IsBlank(from[i])
    ensures WordsFrom(word, ReplaceAll(s, from, " ")) == WordsFrom(word, s)
    decreases |s|
  {
    if s != "" {
      if from <= s {
        var rest := s[|from|..];
        ReplaceKeepsWords("", rest, from);
        assert s == from + rest;
        BlanksEndWord(word, from, rest);
        BlanksEndWord(word, " ", ReplaceAll(rest, from, " "));
      } else {
        var rest := s[1..];
        ReplaceKeepsWords("", rest, from);
        ReplaceKeepsWords(word + [s[0]], rest, from);
        assert ([s[0]] + ReplaceAll(rest, from, " "))[1..] == ReplaceAll(rest, from, " ");
      }
    }
  }

  lemma {:induction false} CollapseKeepsWords(word: string, s: string, afterGap: bool)
    requires afterGap ==> word == ""
    ensures WordsFrom(word, Collapse(s, afterGap)) == WordsFrom(word, s)
    decreases |s|
  {
    if s != "" {
      var rest := s[1..];
      if IsGap(s[0]) {
        CollapseKeepsWords("", rest, true);
        if afterGap {
          assert "" + Collapse(rest, true) == Collapse(rest, true);
        } else {
          BlanksEndWord(word, " ", Collapse(rest, true));
        }
      } else {
        CollapseKeepsWords("", rest, false);
        CollapseKeepsWords(word + [s[0]], rest, false);
        assert ([s[0]] + Collapse(rest, false))[1..] == Collapse(rest, false);
      }
    }
  }

  lemma {:induction false} TrailingBlanks(word: string, s: string, blanks: string)
    requires forall i | 0 <= i < |blanks| :: IsBlank(blanks[i])
    ensures WordsFrom(word, s + blanks) == WordsFrom(word, s)
    decreases |s|
  {
    if s == "" {
      if blanks != "" {
        assert s + blanks == blanks + "";
        BlanksEndWord(word, blanks, "");
      }
    } else {
      assert (s + blanks)[1..] == s[1..] + blanks;
      TrailingBlanks("", s[1..], blanks);
      TrailingBlanks(word + [s[0]], s[1..], blanks);
    }
  }

  /** The only spaces are blanks and line breaks. */
  predicate PlainSpaces(s: string) {
    forall i | 0 <= i < |s| :: IsSpace(s[i]) ==> IsBlank(s[i])
  }

  lemma {:induction false} ReplacePlain(s: string, from: string)
    requires from != "" && PlainSpaces(s)
    ensures PlainSpaces(ReplaceAll(s, from, " "))
    decreases |s|
  {
    if s != "" {
      if from <= s {
        ReplacePlain(s[|from|..], from);
      } else {
        ReplacePlain(s[1..], from);
      }
    }
  }

  lemma {:induction false} CollapsePlain(s: string, afterGap: bool)
    requires PlainSpaces(s)
    ensures PlainSpaces(Collapse(s, afterGap))
  {
    if s != "" {
      CollapsePlain(s[1..], IsGap(s[0]));
    }
  }

  /** A normalised command has the words of the original, in their order; what the
      final trimming takes off besides blanks are other spaces at the two ends. */
  lemma NormalizeKeepsWords(s: string) returns (pre: string, post: string)
    ensures AllSpace(pre) && AllSpace(post) && Words(pre + NormalizeCommand(s) + post) == Words(s)
    ensures PlainSpaces(s) ==> Words(NormalizeCommand(s)) == Words(s)
  {
    var s1 := ReplaceAll(s, "\r\n", " ");
    var s2 := ReplaceAll(s1, "\n", " ");
    ReplaceKeepsWords("", s, "\r\n");
    ReplaceKeepsWords("", s1, "\n");
    ReplaceKeepsWords("", s2, "\r");
    CollapseKeepsWords("", OneLine(s), false);
    var t := Collapse(OneLine(s), false);
    pre, post := TrimSplit(t);
    if PlainSpaces(s) {
      ReplacePlain(s, "\r\n");
      ReplacePlain(s1, "\n");
      ReplacePlain(s2, "\r");
      CollapsePlain(OneLine(s), false);
      TrimKeepsWords(pre, TrimSpace(t), post, t);
    }
  }

  lemma TrimKeepsWords(pre: string, middle: string, post: string, t: string)
    requires t == pre + middle + post && AllSpace(pre) && AllSpace(post) && PlainSpaces(t)
    ensures Words(middle) == Words(t)
  {
    forall i | 0 <= i < |pre| ensures IsBlank(pre[i]) { assert t[i] == pre[i]; }
    forall i | 0 <= i < |post| ensures IsBlank(post[i]) { assert t[|pre| + |middle| + i] == post[i]; }
    TrailingBlanks("", pre + middle, post);
    if pre == "" {
      assert pre + middle == middle;
    } else {
      BlanksEndWord("", pre, middle);
    }
  }

  function ResolveStep(s: Step, r: Request): Step {
    s.(commands := seq(|s.commands|, i requires 0 <= i < |s.commands| =>
         NormalizeCommand(ReplaceDistributionVariables(s.commands[i], r))))
  }

  function ResolveSteps(steps: seq<Step>, r: Request): seq<Step> {
    seq(|steps|, i requires 0 <= i < |steps| => ResolveStep(steps[i], r))
  }

  /** A definition with its commands filled in for the request. */
  function Resolve(p: Package, r: Request): Package {
    p.(preInstall := ResolveSteps(p.preInstall, r),
       install := ResolveSteps(p.install, r),
       postInstall := ResolveSteps(p.postInstall, r))
  }

  /** The steps of one phase, with their conditions as they were and each command
      filled in and normalised. */
  ghost predicate IsFilledIn(was: seq<Step>, now: seq<Step>, r: Request) {
    && |now| == |was|
    && forall i | 0 <= i < |was| ::
         && now[i].conditions == was[i].conditions && |now[i].commands| == |was[i].commands|
         && forall j, pieces | 0 <= j < |was[i].commands| && IsCommand(was[i].commands[j], pieces, r) ::
              now[i].commands[j] == NormalizeCommand(Filled(pieces, r))
  }

  predicate IsCommand(command: string, pieces: seq<Piece>, r: Request) {
    && command == Written(pieces) && BraceFree(pieces)
    && '{' !in r.distribution && '{' !in r.version && '{' !in r.codename
  }

  lemma StepsFilledIn(steps: seq<Step>, r: Request)
    ensures IsFilledIn(steps, ResolveSteps(steps, r), r)
  {
    forall i, j, pieces | 0 <= i < |steps| && 0 <= j < |steps[i].commands| && IsCommand(steps[i].commands[j], pieces, r)
      ensures ResolveSteps(steps, r)[i].commands[j] == NormalizeCommand(Filled(pieces, r))
    {
      VariablesReplaced(pieces, r);
    }
  }

  /** What becomes of a definition: its commands are filled in, phase by phase, and
      nothing else changes. */
  ghost predicate IsDefinition(was: Package, now: Package, r: Request) {
    && now.name == was.name && now.dependencies == was.dependencies && now.replaceWith == was.replaceWith
    && now.lookupPaths == was.lookupPaths && now.pathEnv == was.pathEnv
    && IsFilledIn(was.preInstall, now.preInstall, r)
    && IsFilledIn(was.install, now.install, r)
    && IsFilledIn(was.postInstall, now.postInstall, r)
  }

  lemma ResolveMeaning(p: Package, r: Request)
    ensures IsDefinition(p, Resolve(p, r), r)
  {
    StepsFilledIn(p.preInstall, r);
    StepsFilledIn(p.install, r);
    StepsFilledIn(p.postInstall, r);
  }

  // ------------------------------------------------------------ layering

  /** Which parts of a request a file name uses. */
  datatype Layer = Layer(distribution: bool, version: bool, codename: bool, platform: bool)

  function Count(l: Layer): nat {
    (if l.distribution then 1 else 0) + (if l.version then 1 else 0)
    + (if l.codename then 1 else 0) + (if l.platform then 1 else 0)
  }

  /** A release is named by its version or by its codename, after its distribution;
      a platform comes alone or behind a release. */
  predicate IsLayer(l: Layer) {
    && !(l.version && l.codename)
    && (l.version || l.codename ==> l.distribution)
    && (l.platform && l.distribution ==> l.version || l.codename)
  }

  /** Every part the name uses is known. */
  predicate Known(l: Layer, e: Embedded, r: Request) {
    && (l.distribution ==> e.toLower(r.distribution) != "")
    && (l.version ==> r.version != "")
    && (l.codename ==> r.codename != "")
    && (l.platform ==> r.platform != "")
  }

  function FileName(l: Layer, e: Embedded, r: Request): string {
    (if l.distribution then e.toLower(r.distribution) else "default")
    + (if l.version then "_" + r.version else "")
    + (if l.codename then "_" + r.codename else "")
    + (if l.platform then "_" + r.platform else "")
    + ".yaml"
  }

  /** Fewer parts first; then a platform before a distribution, and a version
      before a codename. */
  predicate Before(a: Layer, b: Layer) {
    || Count(a) < Count(b)
    || (Count(a) == Count(b) && !a.distribution && b.distribution)
    || (Count(a) == Count(b) && a.distribution == b.distribution && !a.codename && b.codename)
  }

  /** Exactly the layers whose parts are known, each once, in that order. */
  ghost predicate IsLayering(layers: seq<Layer>, e: Embedded, r: Request) {
    && (forall l :: l in layers <==> IsLayer(l) && Known(l, e, r))
    && InOrder(layers)
  }

  ghost predicate InOrder(layers: seq<Layer>) {
    forall i, j | 0 <= i < j < |layers| :: Before(layers[i], layers[j])
  }

  function Names(layers: seq<Layer>, e: Embedded, r: Request): (names: seq<string>)
    ensures |names| == |layers| && forall i | 0 <= i < |layers| :: names[i] == FileName(layers[i], e, r)
  {
    seq(|layers|, i requires 0 <= i < |layers| => FileName(layers[i], e, r))
  }

  ghost predicate IsFileList(files: seq<string>, e: Embedded, r: Request) {
    exists layers :: IsLayering(layers, e, r) && files == Names(layers, e, r)
  }

  /** b uses every part a does, and more. */
  predicate MoreSpecific(b: Layer, a: Layer) {
    && (a.distribution ==> b.distribution) && (a.version ==> b.version)
    && (a.codename ==> b.codename) && (a.platform ==> b.platform)
    && a != b
  }

  /** The files go from generic to specific. */
  lemma GenericFirst(layers: seq<Layer>, e: Embedded, r: Request, i: nat, j: nat)
    requires IsLayering(layers, e, r) && i < |layers| && j < |layers|
    requires MoreSpecific(layers[j], layers[i])
    ensures i < j
  {
    assert Count(layers[i]) < Count(layers[j]);
    assert !Before(layers[j], layers[i]);
  }

  /** There is only one list of files for a request. */
  lemma FileListUnique(a: seq<string>, b: seq<string>, e: Embedded, r: Request)
    requires IsFileList(a, e, r) && IsFileList(b, e, r)
    ensures a == b
  {
    var p :| IsLayering(p, e, r) && a == Names(p, e, r);
    var q :| IsLayering(q, e, r) && b == Names(q, e, r);
    Order.SortedUnique(p, q, Before);
  }

  /** The layers in their order. */
  function LayerAt(n: nat): Layer
    requires n < 7
  {
    if n == 0 then Layer(false, false, false, false)
    else if n == 1 then Layer(false, false, false, true)
    else if n == 2 then Layer(true, false, false, false)
    else if n == 3 then Layer(true, true, false, false)
    else if n == 4 then Layer(true, false, true, false)
    else if n == 5 then Layer(true, true, false, true)
    else Layer(true, false, true, true)
  }

  function Position(l: Layer): (n: nat)
    requires IsLayer(l)
    ensures n < 7 && LayerAt(n) == l
  {
    if !l.distribution then (if l.platform then 1 else 0)
    else if l.version then (if l.platform then 5 else 3)
    else if l.codename then (if l.platform then 6 else 4)
    else 2
  }

  lemma LayersInOrder(i: nat, j: nat)
    requires i < j < 7
    ensures IsLayer(LayerAt(i)) && Before(LayerAt(i), LayerAt(j))
  {
  }

  /** The first n layers, as far as their parts are known. */
  function KnownLayers(n: nat, e: Embedded, r: Request): (known: seq<Layer>)
    requires n <= 7
    ensures forall l | l in known :: IsLayer(l) && Known(l, e, r) && Position(l) < n
    ensures forall i: nat | i < n && Known(LayerAt(i), e, r) :: LayerAt(i) in known
  {
    if n == 0 then []
    else KnownLayers(n - 1, e, r) + if Known(LayerAt(n - 1), e, r) then [LayerAt(n - 1)] else []
  }

  lemma {:induction false} KnownLayersOrdered(n: nat, e: Embedded, r: Request)
    requires n <= 7
    ensures InOrder(KnownLayers(n, e, r))
  {
    if n > 0 {
      KnownLayersOrdered(n - 1, e, r);
      var known := KnownLayers(n - 1, e, r);
      forall i | 0 <= i < |known| ensures Before(known[i], LayerAt(n - 1)) {
        assert known[i] in known;
        LayersInOrder(Position(known[i]), n - 1);
      }
    }
  }

  lemma KnownLayersLayering(e: Embedded, r: Request)
    ensures IsLayering(KnownLayers(7, e, r), e, r)
  {
    KnownLayersOrdered(7, e, r);
    forall l | IsLayer(l) && Known(l, e, r) ensures l in KnownLayers(7, e, r) {
      assert LayerAt(Position(l)) == l;
    }
  }

  /** The files for a request, from generic to specific. */
  function FilesToLoad(e: Embedded, r: Request): (files: seq<string>)
    ensures IsFileList(files, e, r)
  {
    KnownLayersLayering(e, r);
    Names(KnownLayers(7, e, r), e, r)
  }

  /** The files of the first n layers. */
  ghost predicate UpTo(files: seq<string>, n: nat, e: Embedded, r: Request)
    requires n <= 7
  {
    files == Names(KnownLayers(n, e, r), e, r)
  }

  lemma AddFile(before: seq<string>, files: seq<string>, n: nat, e: Embedded, r: Request)
    requires n < 7 && UpTo(before, n, e, r)
    requires files == if Known(LayerAt(n), e, r) then before + [FileName(LayerAt(n), e, r)] else before
    ensures UpTo(files, n + 1, e, r)
  {
  }

  lemma PartsOf0(e: Embedded, r: Request)
    ensures Known(LayerAt(0), e, r) && FileName(LayerAt(0), e, r) == "default.yaml"
  {
    assert "default" + "" + "" + "" + ".yaml" == "default.yaml";
  }

  lemma PartsOf1(e: Embedded, r: Request)
    ensures Known(LayerAt(1), e, r) <==> r.platform != ""
    ensures FileName(LayerAt(1), e, r) == "default_" + r.platform + ".yaml"
  {
    var p := r.platform;
    assert "default" + "" + "" + ("_" + p) + ".yaml" == "default_" + p + ".yaml";
  }

  lemma PartsOf2(e: Embedded, r: Request)
    ensures var d := e.toLower(r.distribution);
      && (Known(LayerAt(2), e, r) <==> d != "")
      && FileName(LayerAt(2), e, r) == d + ".yaml"
  {
    var d := e.toLower(r.distribution);
    assert d + "" + "" + "" + ".yaml" == d + ".yaml";
  }

  lemma PartsOf3(e: Embedded, r: Request)
    ensures var d := e.toLower(r.distribution);
      && (Known(LayerAt(3), e, r) <==> d != "" && r.version != "")
      && FileName(LayerAt(3), e, r) == d + "_" + r.version + ".yaml"
  {
    var d, v := e.toLower(r.distribution), r.version;
    assert d + ("_" + v) + "" + "" + ".yaml" == d + "_" + v + ".yaml";
  }

  lemma PartsOf4(e: Embedded, r: Request)
    ensures var d := e.toLower(r.distribution);
      && (Known(LayerAt(4), e, r) <==> d != "" && r.codename != "")
      && FileName(LayerAt(4), e, r) == d + "_" + r.codename + ".yaml"
  {
    var d, c := e.toLower(r.distribution), r.codename;
    assert d + "" + ("_" + c) + "" + ".yaml" == d + "_" + c + ".yaml";
  }

  lemma PartsOf5(e: Embedded, r: Request)
    ensures var d := e.toLower(r.distribution);
      && (Known(LayerAt(5), e, r) <==> d != "" && r.version != "" && r.platform != "")
      && FileName(LayerAt(5), e, r) == d + "_" + r.version + "_" + r.platform + ".yaml"
  {
    var d, p, v := e.toLower(r.distribution), r.platform, r.version;
    assert d + ("_" + v) + "" + ("_" + p) + ".yaml" == d + "_" + v + "_" + p + ".yaml";
  }

  lemma PartsOf6(e: Embedded, r: Request)
    ensures var d := e.toLower(r.distribution);
      && (Known(LayerAt(6), e, r) <==> d != "" && r.codename != "" && r.platform != "")
      && FileName(LayerAt(6), e, r) == d + "_" + r.codename + "_" + r.platform + ".yaml"
  {
    var d, p, c := e.toLower(r.distribution), r.platform, r.codename;
    assert d + "" + ("_" + c) + ("_" + p) + ".yaml" == d + "_" + c + "_" + p + ".yaml";
  }

  lemma AddDefault(e: Embedded, r: Request)
    ensures UpTo(["default.yaml"], 1, e, r)
  {
    PartsOf0(e, r);
    assert [] + ["default.yaml"] == ["default.yaml"];
    AddFile([], ["default.yaml"], 0, e, r);
  }

  lemma AddPlatform(before: seq<string>, files: seq<string>, e: Embedded, r: Request)
    requires UpTo(before, 1, e, r)
    requires files == if r.platform != "" then before + ["default_" + r.platform + ".yaml"] else before
    ensures UpTo(files, 2, e, r)
  {
    PartsOf1(e, r);
    AddFile(before, files, 1, e, r);
  }

  lemma AddDistribution(before: seq<string>, files: seq<string>, e: Embedded, r: Request)
    requires UpTo(before, 2, e, r)
    requires var d := e.toLower(r.distribution);
      files == if d != "" then before + [d + ".yaml"] else before
    ensures UpTo(files, 3, e, r)
  {
    PartsOf2(e, r);
    AddFile(before, files, 2, e, r);
  }

  lemma AddVersion(before: seq<string>, files: seq<string>, e: Embedded, r: Request)
    requires UpTo(before, 3, e, r)
    requires var d := e.toLower(r.distribution);
      files == if d != "" && r.version != "" then before + [d + "_" + r.version + ".yaml"] else before
    ensures UpTo(files, 4, e, r)
  {
    PartsOf3(e, r);
    AddFile(before, files, 3, e, r);
  }

  lemma AddCodename(before: seq<string>, files: seq<string>, e: Embedded, r: Request)
    requires UpTo(before, 4, e, r)
    requires var d := e.toLower(r.distribution);
      files == if d != "" && r.codename != "" then before + [d + "_" + r.codename + ".yaml"] else before
    ensures UpTo(files, 5, e, r)
  {
    PartsOf4(e, r);
    AddFile(before, files, 4, e, r);
  }

  lemma AddVersionPlatform(before: seq<string>, files: seq<string>, e: Embedded, r: Request)
    requires UpTo(before, 5, e, r)
    requires var d := e.toLower(r.distribution);
      files ==
        if d != "" && r.version != "" && r.platform != ""
        then before + [d + "_" + r.version + "_" + r.platform + ".yaml"] else before
    ensures UpTo(files, 6, e, r)
  {
    PartsOf5(e, r);
    AddFile(before, files, 5, e, r);
  }

  lemma AddCodenamePlatform(before: seq<string>, files: seq<string>, e: Embedded, r: Request)
    requires UpTo(before, 6, e, r)
    requires var d := e.toLower(r.distribution);
      files ==
        if d != "" && r.codename != "" && r.platform != ""
        then before + [d + "_" + r.codename + "_" + r.platform + ".yaml"] else before
    ensures UpTo(files, 7, e, r)
  {
    PartsOf6(e, r);
    AddFile(before, files, 6, e, r);
  }

  function Path(r: Request, file: string): string {
    r.manager + "/" + file
  }

  /** The package definitions in the files, in order; missing files are skipped. */
  function Definitions(e: Embedded, r: Request, files: seq<string>): seq<Package> {
    if files == [] then []
    else
      var last := Path(r, files[|files| - 1]);
      var before := Definitions(e, r, files[..|files| - 1]);
      if last in e.files && e.files[last].Listed? then before + e.files[last].packages else before
  }

  /** Each file adds what is listed in it under the directory of the manager. */
  lemma DefinitionsOf(e: Embedded, r: Request, before: seq<string>, file: string)
    ensures Definitions(e, r, before + [file]) == Definitions(e, r, before) +
      match Listing(e, r.manager + "/" + file) case Some(packages) => packages case None => []
  {
    assert (before + [file])[..|before|] == before;
  }

  function Listing(e: Embedded, path: string): Option<seq<Package>> {
    if path in e.files && e.files[path].Listed? then Some(e.files[path].packages) else None
  }

  predicate AllWellFormed(e: Embedded, r: Request, files: seq<string>) {
    forall i | 0 <= i < |files| :: Path(r, files[i]) in e.files ==> e.files[Path(r, files[i])].Listed?
  }

  /** The last definition with a name. */
  function LastNamed(defs: seq<Package>, name: string): Option<Package> {
    if defs == [] then None
    else if defs[|defs| - 1].name == name then Some(defs[|defs| - 1])
    else LastNamed(defs[..|defs| - 1], name)
  }

  /** Each name means its last definition, filled in for the request. */
  ghost predicate IsLoaded(packages: Packages, defs: seq<Package>, r: Request) {
    forall name :: match LastNamed(defs, name)
      case None => name !in packages
      case Some(p) => name in packages && packages[name] == Resolve(p, r)
  }

  lemma LoadedUnique(a: Packages, b: Packages, defs: seq<Package>, r: Request)
    requires IsLoaded(a, defs, r) && IsLoaded(b, defs, r)
    ensures a == b
  {
    forall name
      ensures name in a <==> name in b
      ensures name in a ==> a[name] == b[name]
    {
      assert LastNamed(defs, name).Some? ==> name in a && name in b;
    }
  }

  function Merge(packages: Packages, defs: seq<Package>, r: Request): Packages {
    if defs == [] then packages
    else
      var last := defs[|defs| - 1];
      Merge(packages, defs[..|defs| - 1], r)[last.name := Resolve(last, r)]
  }

  lemma {:induction false} MergeLoaded(packages: Packages, before: seq<Package>, defs: seq<Package>, r: Request)
    requires IsLoaded(packages, before, r)
    ensures IsLoaded(Merge(packages, defs, r), before + defs, r)
  {
    if defs == [] {
      assert before + defs == before;
    } else {
      var n := |defs| - 1;
      MergeLoaded(packages, before, defs[..n], r);
      assert (before + defs)[..|before| + n] == before + defs[..n];
    }
  }

  /** What a load that uses no cache gives; None is a malformed file. */
  function FreshLoad(e: Embedded, r: Request): (result: Option<Packages>) {
    var files := FilesToLoad(e, r);
    if AllWellFormed(e, r, files) then Some(Merge(map[], Definitions(e, r, files), r)) else None
  }

  /** A load gives each package name its last definition, from generic to specific,
      with the commands filled in for the request. */
  lemma FreshLoadMeaning(e: Embedded, r: Request)
    ensures FreshLoad(e, r).Some? ==> IsLoaded(FreshLoad(e, r).value, Definitions(e, r, FilesToLoad(e, r)), r)
    ensures FreshLoad(e, r).Some? ==>
      forall name | name in FreshLoad(e, r).value ::
        IsLastDefinition(Definitions(e, r, FilesToLoad(e, r)), name, FreshLoad(e, r).value[name], r)
  {
    var defs := Definitions(e, r, FilesToLoad(e, r));
    MergeLoaded(map[], [], defs, r);
    assert [] + defs == defs;
    if FreshLoad(e, r).Some? {
      var packages := FreshLoad(e, r).value;
      forall name | name in packages ensures IsLastDefinition(defs, name, packages[name], r) {
        LoadedIsLast(packages, defs, r, name);
      }
    }
  }

  lemma LoadedIsLast(packages: Packages, defs: seq<Package>, r: Request, name: string)
    requires IsLoaded(packages, defs, r) && name in packages
    ensures IsLastDefinition(defs, name, packages[name], r)
  {
    LastNamedAt(defs, name);
    ResolveMeaning(LastNamed(defs, name).value, r);
  }

  /** `now` is the last definition of the name, filled in. */
  ghost predicate IsLastDefinition(defs: seq<Package>, name: string, now: Package, r: Request) {
    exists i: nat :: IsLastAt(defs, name, i) && IsDefinition(defs[i], now, r)
  }

  ghost predicate IsLastAt(defs: seq<Package>, name: string, i: nat) {
    i < |defs| && defs[i].name == name && forall j | i < j < |defs| :: defs[j].name != name
  }

  lemma {:induction false} LastNamedAt(defs: seq<Package>, name: string)
    ensures LastNamed(defs, name).Some? ==>
      exists i: nat :: IsLastAt(defs, name, i) && LastNamed(defs, name).value == defs[i]
    ensures LastNamed(defs, name).None? ==> forall i | 0 <= i < |defs| :: defs[i].name != name
  {
    if defs != [] {
      var n := |defs| - 1;
      if defs[n].name == name {
        assert IsLastAt(defs, name, n);
      } else {
        LastNamedAt(defs[..n], name);
        if LastNamed(defs, name).Some? {
          var i: nat :| IsLastAt(defs[..n], name, i) && LastNamed(defs[..n], name).value == defs[..n][i];
          assert IsLastAt(defs, name, i) by {
            assert forall j | i < j < n :: defs[..n][j] == defs[j];
          }
        } else {
          assert forall i | 0 <= i < n :: defs[..n][i] == defs[i];
        }
      }
    }
  }

  // ------------------------------------------------------- shared keys

  lemma {:induction false} DefinitionsInclude(e: Embedded, r: Request, files: seq<string>, i: nat, p: Package)
    requires i < |files| && Path(r, files[i]) in e.files && e.files[Path(r, files[i])].Listed?
    requires p in e.files[Path(r, files[i])].packages
    ensures p in Definitions(e, r, files)
  {
    if i < |files| - 1 {
      DefinitionsInclude(e, r, files[..|files| - 1], i, p);
    }
  }

  lemma {:induction false} NoDefinitions(e: Embedded, r: Request, files: seq<string>)
    requires forall i | 0 <= i < |files| :: Path(r, files[i]) !in e.files
    ensures Definitions(e, r, files) == []
  {
    if files != [] {
      NoDefinitions(e, r, files[..|files| - 1]);
    }
  }

  lemma {:induction false} LastNamedFound(defs: seq<Package>, p: Package)
    requires p in defs
    ensures LastNamed(defs, p.name).Some?
  {
    if defs[|defs| - 1] != p {
      assert defs == defs[..|defs| - 1] + [defs[|defs| - 1]];
      LastNamedFound(defs[..|defs| - 1], p);
    }
  }

  /** An underscore can move from one component to the next without changing the
      key, but not without changing the packages: here only the first request
      finds a file of its own. */
  lemma KeyCollision(a: Request, b: Request, e: Embedded, p: Package)
    requires a == Request("apt", "x_y", "1", "", "amd64") && b == Request("apt", "x", "y_1", "", "amd64")
    requires e.files == map["apt/x_y.yaml" := Listed([p])]
    requires e.toLower("x_y") == "x_y" && e.toLower("x") == "x"
    ensures BuildCacheKey(a) == BuildCacheKey(b)
    ensures FreshLoad(e, a).Some? && p.name in FreshLoad(e, a).value
    ensures FreshLoad(e, b) == Some(map[])
  {
    assert a.manager + "_" + a.distribution == "apt_x_y";
    assert b.manager + "_" + b.distribution + "_" + b.version == "apt_x_y_1";
    assert a.manager + "_" + a.distribution + "_" + a.version == "apt_x_y_1";
    FirstFindsItsFile(a, e, p);
    SecondFindsNone(b, e);
  }

  lemma FirstFindsItsFile(a: Request, e: Embedded, p: Package)
    requires a == Request("apt", "x_y", "1", "", "amd64")
    requires e.files == map["apt/x_y.yaml" := Listed([p])] && e.toLower("x_y") == "x_y"
    ensures FreshLoad(e, a).Some? && p.name in FreshLoad(e, a).value
  {
    var files := FilesToLoad(e, a);
    var i := DistributionFile(a, e);
    assert "x_y" + ".yaml" == "x_y.yaml";
    assert Path(a, files[i]) == "apt/x_y.yaml";
    DefinitionsInclude(e, a, files, i, p);
    LastNamedFound(Definitions(e, a, files), p);
    FreshLoadMeaning(e, a);
  }

  lemma DistributionFile(r: Request, e: Embedded) returns (i: nat)
    requires e.toLower(r.distribution) != ""
    ensures i < |FilesToLoad(e, r)| && FilesToLoad(e, r)[i] == e.toLower(r.distribution) + ".yaml"
  {
    var layers := KnownLayers(7, e, r);
    PartsOf2(e, r);
    i :| i < |layers| && layers[i] == LayerAt(2);
  }

  lemma SecondFindsNone(b: Request, e: Embedded)
    requires b == Request("apt", "x", "y_1", "", "amd64")
    requires e.files.Keys == {"apt/x_y.yaml"} && e.toLower("x") == "x"
    ensures FreshLoad(e, b) == Some(map[])
  {
    var files := FilesToLoad(e, b);
    var layers := KnownLayers(7, e, b);
    forall i | 0 <= i < |files| ensures Path(b, files[i]) !in e.files {
      assert layers[i] in layers && files[i] == FileName(layers[i], e, b);
      OtherLength(layers[i], b, e);
      assert |Path(b, files[i])| == 4 + |files[i]|;
    }
    NoDefinitions(e, b, files);
  }

  lemma OtherLength(l: Layer, b: Request, e: Embedded)
    requires b == Request("apt", "x", "y_1", "", "amd64") && e.toLower("x") == "x"
    requires Known(l, e, b) && IsLayer(l)
    ensures |FileName(l, e, b)| != 8
  {
    assert |"default"| == 7 && |".yaml"| == 5 && |"_" + "y_1"| == 4 && |"_" + "amd64"| == 6;
  }

  lemma DefinitionsStep(e: Embedded, r: Request, files: seq<string>, i: nat)
    requires i < |files|
    ensures AllWellFormed(e, r, files[..i + 1]) <==>
      AllWellFormed(e, r, files[..i]) && (Path(r, files[i]) in e.files ==> e.files[Path(r, files[i])].Listed?)
    ensures Definitions(e, r, files[..i + 1]) ==
      var before := Definitions(e, r, files[..i]);
      if Path(r, files[i]) in e.files && e.files[Path(r, files[i])].Listed?
      then before + e.files[Path(r, files[i])].packages else before
  {
    var some, more := files[..i], files[..i + 1];
    assert more[..i] == some && more[i] == files[i];
    assert forall j | 0 <= j < i :: more[j] == some[j];
  }

  lemma MalformedStays(e: Embedded, r: Request, files: seq<string>, i: nat)
    requires i < |files| && Path(r, files[i]) in e.files && e.files[Path(r, files[i])].Malformed?
    ensures !AllWellFormed(e, r, files)
  {
  }

  /** The loop over the files. */
  method LoadList(e: Embedded, r: Request, files: seq<string>) returns (result: Option<Packages>)
    ensures result.Some? <==> AllWellFormed(e, r, files)
    ensures result.Some? ==> IsLoaded(result.value, Definitions(e, r, files), r)
  {
    var packages: Packages := map[];
    for i := 0 to |files|
      invariant AllWellFormed(e, r, files[..i])
      invariant IsLoaded(packages, Definitions(e, r, files[..i]), r)
    {
      DefinitionsStep(e, r, files, i);
      var name := Path(r, files[i]);
      if name !in e.files {
        continue;
      }
      if e.files[name].Malformed? {
        MalformedStays(e, r, files, i);
        return None;
      }
      packages := MergeFile(packages, e.files[name].packages, Definitions(e, r, files[..i]), r);
    }
    assert files[..|files|] == files;
    return Some(packages);
  }

  method LoadFiles(e: Embedded, r: Request) returns (result: Option<Packages>)
    ensures result == FreshLoad(e, r)
  {
    var files := BuildFileList(e, r);
    result := LoadList(e, r, files);
    FreshLoadMeaning(e, r);
    if result.Some? {
      LoadedUnique(result.value, FreshLoad(e, r).value, Definitions(e, r, files), r);
    }
  }

  method MergeFile(packages: Packages, list: seq<Package>, ghost before: seq<Package>, r: Request)
    returns (merged: Packages)
    requires IsLoaded(packages, before, r)
    ensures IsLoaded(merged, before + list, r)
  {
    merged := packages;
    assert before + list[..0] == before;
    for i := 0 to |list|
      invariant IsLoaded(merged, before + list[..i], r)
    {
      var pkg := list[i];
      assert (before + list[..i + 1])[..|before| + i] == before + list[..i];
      merged := merged[pkg.name := Resolve(pkg, r)];
    }
    assert list[..|list|] == list;
  }

  method BuildFileList(e: Embedded, r: Request) returns (files: seq<string>)
    ensures files == FilesToLoad(e, r) && IsFileList(files, e, r)
  {
    var distribution := e.toLower(r.distribution);
    files := ["default.yaml"];
    AddDefault(e, r);
    ghost var before := files;
    if r.platform != "" {
      files := files + ["default_" + r.platform + ".yaml"];
    }
    AddPlatform(before, files, e, r);
    before := files;
    if distribution != "" {
      files := files + [distribution + ".yaml"];
    }
    AddDistribution(before, files, e, r);
    before := files;
    if distribution != "" && r.version != "" {
      files := files + [distribution + "_" + r.version + ".yaml"];
    }
    AddVersion(before, files, e, r);
    before := files;
    if distribution != "" && r.codename != "" {
      files := files + [distribution + "_" + r.codename + ".yaml"];
    }
    AddCodename(before, files, e, r);
    before := files;
    if distribution != "" && r.version != "" && r.platform != "" {
      files := files + [distribution + "_" + r.version + "_" + r.platform + ".yaml"];
    }
    AddVersionPlatform(before, files, e, r);
    before := files;
    if distribution != "" && r.codename != "" && r.platform != "" {
      files := files + [distribution + "_" + r.codename + "_" + r.platform + ".yaml"];
    }
    AddCodenamePlatform(before, files, e, r);
  }
}
