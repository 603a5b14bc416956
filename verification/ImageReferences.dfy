/** Whole image references with placeholders, and the scanner that must find the
    variables in them (internal/application/application.go,
    internal/compose/runner.go). */
module ImageReferences {
  import opened Basics
  import opened RegistryPaths
  import opened Interpolation

  // ----- The scanner

  /** Where a name is cut: at the first operator byte. */
  function NameCut(s: string): (n: nat)
    ensures n <= |s|
    ensures forall k | 0 <= k < n :: s[k] != ':' && !IsOperator(s[k])
    ensures n < |s| ==> s[n] == ':' || IsOperator(s[n])
  {
    if s == "" || s[0] == ':' || IsOperator(s[0]) then 0 else 1 + NameCut(s[1..])
  }

  function Found(inner: string): set<string> {
    if IsName(inner[..NameCut(inner)]) then {inner[..NameCut(inner)]} else {}
  }

  /** What the scanner finds at the head of a string, and how far it moves: over a
      brace that is never closed it moves to the end. */
  function ScanOne(s: string): (r: (set<string>, nat))
    requires s != ""
    ensures 0 < r.1 <= |s|
  {
    if s[0] != '$' || |s| < 2 then ({}, 1)
    else if s[1] == '$' then ({}, 2)
    else if s[1] == '{' then
      var closing := Find(s[2..], '}');
      if closing == |s| - 2 then ({}, |s|) else (Found(s[2..2 + closing]), closing + 3)
    else
      var n := NameLength(s[1..]);
      (if n == 0 then {} else {s[1..1 + n]}, 1 + n)
  }

  /** The variables a Compose file mentions. */
  function Scan(s: string): set<string>
    decreases |s|
  {
    if s == "" then {} else ScanOne(s).0 + Scan(s[ScanOne(s).1..])
  }

  method NameEnd(contents: string, start: nat) returns (end: nat)
    requires start <= |contents|
    ensures end == start + NameLength(contents[start..])
  {
    ghost var rest := contents[start..];
    NameIsLongest(rest);
    end := start;
    while end < |contents| && (IsNameStart(contents[end]) || (end > start && IsNameChar(contents[end])))
      invariant start <= end <= start + NameLength(rest)
      invariant end < |contents| ==> contents[end] == rest[end - start]
    {
      end := end + 1;
    }
  }

  method ScanStep(contents: string, index: nat) returns (found: set<string>, next: nat)
    requires index < |contents|
    ensures found == ScanOne(contents[index..]).0 && next == index + ScanOne(contents[index..]).1
  {
    ghost var rest := contents[index..];
    assert rest[0] == contents[index];
    if contents[index] != '$' || index + 1 >= |contents| {
      return {}, index + 1;
    }
    assert rest[1] == contents[index + 1];
    if contents[index + 1] == '$' {
      return {}, index + 2;
    }
    if contents[index + 1] == '{' {
      assert rest[2..] == contents[index + 2..];
      var closing := Find(contents[index + 2..], '}');
      if closing == |contents| - index - 2 {
        return {}, |contents|;
      }
      assert rest[2..2 + closing] == contents[index + 2..index + 2 + closing];
      return Found(contents[index + 2..index + 2 + closing]), index + closing + 3;
    }
    assert rest[1..] == contents[index + 1..];
    next := NameEnd(contents, index + 1);
    assert rest[1..next - index] == contents[index + 1..next];
    found := if next > index + 1 then {contents[index + 1..next]} else {};
  }

  method ComposeInterpolationVariables(contents: string) returns (variables: set<string>)
    ensures variables == Scan(contents)
  {
    variables := {};
    var index := 0;
    assert contents[0..] == contents;
    while index < |contents|
      invariant index <= |contents|
      invariant variables + Scan(contents[index..]) == Scan(contents)
    {
      var found, next := ScanStep(contents, index);
      assert contents[index..][next - index..] == contents[next..];
      variables := variables + found;
      index := next;
    }
  }

  function NamesOf(token: Token): set<string> {
    if token.Literal? then {} else {token.name}
  }

  lemma {:induction false} NameIsCut(name: string, fallback: string)
    requires forall i | 0 <= i < |name| :: IsNameChar(name[i])
    requires fallback != "" ==> fallback[0] == ':' || IsOperator(fallback[0])
    ensures NameCut(name + fallback) == |name|
  {
    if name != "" {
      NameIsCut(name[1..], fallback);
      assert (name + fallback)[1..] == name[1..] + fallback;
    } else {
      assert name + fallback == fallback;
    }
  }

  lemma ScanBraced(s: string, inner: string, rest: string)
    requires |s| >= 2 && s[0] == '$' && s[1] == '{' && s[2..] == inner + ['}'] + rest && '}' !in inner
    ensures ScanOne(s) == (Found(inner), |inner| + 3)
  {
    FindEnds(inner, '}', rest);
    assert s[2..2 + |inner|] == s[2..][..|inner|] == inner;
  }

  lemma ScanBare(s: string, name: string, rest: string)
    requires Bare(name).Fits(rest)
    requires s != "" && s[0] == '$' && s[1..] == name + rest
    ensures ScanOne(s) == ({name}, 1 + |name|)
  {
    NameEnds(name, rest);
    assert s[1..1 + |name|] == s[1..][..|name|] == name;
  }

  lemma ScanBracedToken(name: string, fallback: string, rest: string)
    requires Braced(name, fallback).Fits(rest)
    ensures ScanOne(Braced(name, fallback).Text() + rest) == ({name}, |Braced(name, fallback).Text()|)
  {
    BracedLayout(name, fallback, rest);
    NameIsFound(name, fallback);
    ScanBraced(Braced(name, fallback).Text() + rest, name + fallback, rest);
  }

  lemma FallbackStarts(fallback: string)
    requires ValidFallback(fallback)
    ensures fallback != "" ==> fallback[0] == ':' || IsOperator(fallback[0])
  {
  }

  lemma NameIsFound(name: string, fallback: string)
    requires IsName(name) && ValidFallback(fallback)
    ensures Found(name + fallback) == {name}
  {
    FallbackStarts(fallback);
    NameIsCut(name, fallback);
    assert (name + fallback)[..|name|] == name;
  }

  lemma ScanBareToken(name: string, rest: string)
    requires Bare(name).Fits(rest)
    ensures ScanOne(Bare(name).Text() + rest) == ({name}, |Bare(name).Text()|)
  {
    BareLayout(name, rest);
    ScanBare(Bare(name).Text() + rest, name, rest);
  }

  lemma ScanToken(token: Token, rest: string)
    requires token.Fits(rest)
    ensures Scan(token.Text() + rest) == NamesOf(token) + Scan(rest)
  {
    match token
    case Literal(c) =>
    case Bare(name) => ScanBareToken(name, rest);
    case Braced(name, fallback) => ScanBracedToken(name, fallback, rest);
    assert (token.Text() + rest)[|token.Text()|..] == rest;
  }

  /** In front of anything that cannot continue a name, the scanner finds exactly the
      names of the tokens, and then goes on behind them. */
  lemma {:induction false} ScanTokens(tokens: seq<Token>, post: string)
    requires WellFormed(tokens) && (post == "" || !IsNameChar(post[0]))
    ensures Scan(Render(tokens) + post) == NamesIn(tokens) + Scan(post)
  {
    if tokens == [] {
      assert Render(tokens) + post == post;
    } else {
      ScanTokens(tokens[1..], post);
      RenderJoins(tokens, post);
      FitsInFront(tokens[0], Render(tokens[1..]), post);
      ScanToken(tokens[0], Render(tokens[1..]) + post);
    }
  }

  lemma RenderJoins(tokens: seq<Token>, post: string)
    requires tokens != []
    ensures Render(tokens) + post == tokens[0].Text() + (Render(tokens[1..]) + post)
  {
    var text, rest := tokens[0].Text(), Render(tokens[1..]);
    assert text + rest + post == text + (rest + post);
  }

  lemma FitsInFront(token: Token, rest: string, post: string)
    requires token.Fits(rest) && (post == "" || !IsNameChar(post[0]))
    ensures token.Fits(rest + post)
  {
  }

  lemma {:induction false} ScanSkips(pre: string, s: string)
    requires '$' !in pre
    ensures Scan(pre + s) == Scan(s)
  {
    if pre == "" {
      assert pre + s == s;
    } else {
      assert (pre + s)[1..] == pre[1..] + s;
      ScanSkips(pre[1..], s);
      assert ScanOne(pre + s) == ({}, 1);
    }
  }

  // ----- Whole references

  predicate Plain(s: string) {
    forall i | 0 <= i < |s| :: s[i] != '$' && s[i] != '{' && s[i] != '}'
  }

  /** A repository with a tag, or one placeholder for both, and perhaps a digest. */
  datatype Reference = Reference(repository: Option<string>, tag: seq<Token>, digest: Option<string>) {
    function Head(): string {
      if repository.None? then "" else repository.value + ":"
    }

    function Name(): string {
      Head() + Render(tag)
    }

    function Tail(): string {
      if digest.None? then "" else "@" + digest.value
    }

    function Text(): string {
      Name() + Tail()
    }

    /** The grammar of the admitted references, for any grammars of repositories and
        digests. */
    predicate Valid(repositories: string -> bool, digests: string -> bool) {
      && (digest.Some? ==> '@' !in digest.value && Plain(digest.value) && digests(digest.value))
      && ValidName(repository, tag, repositories)
    }
  }

  predicate ValidName(repository: Option<string>, tag: seq<Token>, repositories: string -> bool) {
    if repository.None? then IsLone(tag)
    else '@' !in repository.value && Plain(repository.value) && repositories(repository.value) && IsTag(tag)
  }

  /** A placeholder without a fallback. */
  predicate IsLone(tag: seq<Token>) {
    |tag| == 1 && tag[0].Fits("") && !tag[0].Literal? && (tag[0].Braced? ==> tag[0].fallback == "")
  }

  predicate IsTag(tag: seq<Token>) {
    WellFormed(tag) && AcceptedTag(Render(tag))
  }

  predicate IsPlaceholder(value: string) {
    && value != "" && value[0] == '$'
    && if |value| >= 2 && value[1] == '{' then |value| > 2 && value[|value| - 1] == '}' && IsName(value[2..|value| - 1])
       else IsName(value[1..])
  }

  function PlaceholderToken(value: string): Token
    requires IsPlaceholder(value)
  {
    if |value| >= 2 && value[1] == '{' then Braced(value[2..|value| - 1], "") else Bare(value[1..])
  }

  /** How far the search for separators moves: over a braced placeholder at once. */
  function Skip(s: string): (n: nat)
    requires s != ""
    ensures 0 < n <= |s|
  {
    if |s| < 2 || s[0] != '$' || s[1] != '{' then 1
    else
      var closing := Find(s[2..], '}');
      if closing == |s| - 2 then |s| else closing + 3
  }

  /** The last place of a separator outside braces, or -1. */
  function LastOutside(s: string, c: char): (r: int)
    ensures -1 <= r < |s| && (r >= 0 ==> s[r] == c)
    decreases |s|
  {
    if s == "" then -1
    else
      var r := LastOutside(s[Skip(s)..], c);
      if r >= 0 then r + Skip(s) else if s[0] == c then 0 else -1
  }

  /** The search in the rest from an index on, when one place was found before. */
  function LastFrom(rest: string, index: nat, c: char, last: int): int
    decreases |rest|
  {
    if rest == "" then last
    else LastFrom(rest[Skip(rest)..], index + Skip(rest), c, if rest[0] == c then index else last)
  }

  lemma {:induction false} LastFromIsOutside(rest: string, index: nat, c: char, last: int)
    ensures LastFrom(rest, index, c, last) == var r := LastOutside(rest, c); if r >= 0 then r + index else last
    decreases |rest|
  {
    if rest != "" {
      var n := Skip(rest);
      var behind, found := rest[n..], if rest[0] == c then index else last;
      LastFromIsOutside(behind, index + n, c, found);
      assert LastFrom(rest, index, c, last) == LastFrom(behind, index + n, c, found);
    }
  }

  method SkipAt(name: string, index: nat, ghost rest: string) returns (next: nat, ghost behind: string)
    requires index < |name| && rest == name[index..]
    ensures next == index + Skip(rest) && behind == rest[Skip(rest)..] && behind == name[next..]
  {
    next := index + 1;
    if name[index] == '$' && index + 1 < |name| && name[index + 1] == '{' {
      assert rest[2..] == name[index + 2..];
      var closing := Find(name[index + 2..], '}');
      next := if closing == |name| - index - 2 then |name| else index + closing + 3;
    }
    behind := name[next..];
  }

  /** One step of the search for both separators. */
  method SearchStep(name: string, index: nat, slash: int, colon: int, ghost rest: string)
      returns (next: nat, lastSlash: int, lastColon: int, ghost behind: string)
    requires index < |name| && rest == name[index..]
    ensures index < next <= |name| && behind == name[next..]
    ensures LastFrom(behind, next, '/', lastSlash) == LastFrom(rest, index, '/', slash)
    ensures LastFrom(behind, next, ':', lastColon) == LastFrom(rest, index, ':', colon)
  {
    lastSlash, lastColon := slash, colon;
    if name[index] == '/' {
      lastSlash := index;
    }
    if name[index] == ':' {
      lastColon := index;
    }
    next, behind := SkipAt(name, index, rest);
  }

  method FindSeparators(name: string) returns (lastSlash: int, lastColon: int)
    ensures lastSlash == LastFrom(name, 0, '/', -1) && lastColon == LastFrom(name, 0, ':', -1)
  {
    lastSlash, lastColon := -1, -1;
    ghost var rest := name;
    var index := 0;
    while index < |name|
      invariant index <= |name| && rest == name[index..]
      invariant LastFrom(rest, index, '/', lastSlash) == LastFrom(name, 0, '/', -1)
      invariant LastFrom(rest, index, ':', lastColon) == LastFrom(name, 0, ':', -1)
    {
      index, lastSlash, lastColon, rest := SearchStep(name, index, lastSlash, lastColon, rest);
    }
  }

  method LastImageSeparatorsOutsideInterpolation(name: string) returns (lastSlash: int, lastColon: int)
    ensures lastSlash == LastOutside(name, '/') && lastColon == LastOutside(name, ':')
  {
    LastFromIsOutside(name, 0, '/', -1);
    LastFromIsOutside(name, 0, ':', -1);
    lastSlash, lastColon := FindSeparators(name);
  }

  /** How the name of a reference is read: a repository, if it has one, and a tag. */
  function ReadName(name: string): Option<(Option<string>, seq<Token>)> {
    if IsPlaceholder(name) then Some((None, [PlaceholderToken(name)]))
    else ReadParts(name, LastOutside(name, '/'), LastOutside(name, ':'))
  }

  function ReadParts(name: string, slash: int, colon: int): Option<(Option<string>, seq<Token>)>
    requires -1 <= slash && -1 <= colon < |name|
  {
    if colon <= slash || Parse(name[colon + 1..]).None? then None
    else Some((Some(name[..colon]), Parse(name[colon + 1..]).value))
  }

  /** How a reference is read. */
  function ReadReference(image: string): Option<Reference> {
    var at := Find(image, '@');
    var digest := if at < |image| then Some(image[at + 1..]) else None;
    var read := ReadName(image[..at]);
    if read.None? then None else Some(Reference(read.value.0, read.value.1, digest))
  }

  ghost predicate Admits(read: Option<(Option<string>, seq<Token>)>, repositories: string -> bool) {
    read.Some? && ValidName(read.value.0, read.value.1, repositories)
  }

  method ValidateParts(name: string, lastSlash: int, lastColon: int, repositories: string -> bool) returns (ok: bool)
    requires '@' !in name && -1 <= lastSlash && -1 <= lastColon < |name|
    ensures ok <==> Admits(ReadParts(name, lastSlash, lastColon), repositories)
  {
    if lastColon <= lastSlash {
      return false;
    }
    var repository, tag := name[..lastColon], name[lastColon + 1..];
    AcceptedIsTag(tag);
    if !Plain(repository) || !repositories(repository) {
      return false;
    }
    ok := ValidImageTagWithInterpolation(tag);
  }

  method ValidateName(name: string, repositories: string -> bool) returns (ok: bool)
    requires '@' !in name
    ensures ok <==> Admits(ReadName(name), repositories)
  {
    if IsPlaceholder(name) {
      PlaceholderIsLone(name);
      return true;
    }
    var lastSlash, lastColon := LastImageSeparatorsOutsideInterpolation(name);
    ok := ValidateParts(name, lastSlash, lastColon, repositories);
  }

  lemma PlaceholderIsLone(name: string)
    requires IsPlaceholder(name)
    ensures IsLone([PlaceholderToken(name)])
  {
  }

  lemma AcceptedIsTag(tag: string)
    ensures AcceptedTag(tag) <==> Parse(tag).Some? && IsTag(Parse(tag).value)
  {
    if Parse(tag).Some? {
      ParsedIsRendered(tag);
    }
  }

  /** Admits exactly the references of the grammar. */
  method ValidateImageNameWithInterpolation(image: string, repositories: string -> bool, digests: string -> bool)
      returns (ok: bool)
    ensures ok <==> ReadReference(image).Some? && ReadReference(image).value.Valid(repositories, digests)
  {
    var at := Find(image, '@');
    if at < |image| {
      var digest := image[at + 1..];
      if '@' in digest || !Plain(digest) || !digests(digest) {
        return false;
      }
    }
    FindIsFirst(image, '@');
    ok := ValidateName(image[..at], repositories);
  }

  lemma PlaceholderIsText(name: string)
    requires IsPlaceholder(name)
    ensures PlaceholderToken(name).Text() == name
  {
    if |name| >= 2 && name[1] == '{' {
      Framed(name);
    }
  }

  lemma PartsAreText(name: string, slash: int, colon: int)
    requires -1 <= slash && -1 <= colon < |name| && (colon >= 0 ==> name[colon] == ':')
    requires ReadParts(name, slash, colon).Some?
    ensures var (repository, tag) := ReadParts(name, slash, colon).value;
            repository.Some? && name == repository.value + ":" + Render(tag)
  {
    ParsedIsRendered(name[colon + 1..]);
    SplitAtColon(name, colon);
  }

  lemma SplitAtColon(name: string, colon: nat)
    requires colon < |name| && name[colon] == ':'
    ensures name == name[..colon] + ":" + name[colon + 1..]
  {
  }

  lemma NameIsText(name: string)
    requires ReadName(name).Some?
    ensures Reference(ReadName(name).value.0, ReadName(name).value.1, None).Name() == name
  {
    if IsPlaceholder(name) {
      PlaceholderIsText(name);
      RenderLone(PlaceholderToken(name));
    } else {
      PartsAreText(name, LastOutside(name, '/'), LastOutside(name, ':'));
    }
  }

  /** Reading loses nothing. */
  lemma ReadIsText(image: string)
    requires ReadReference(image).Some?
    ensures ReadReference(image).value.Text() == image
  {
    var at := Find(image, '@');
    NameIsText(image[..at]);
    assert ReadReference(image).value.Name() == image[..at];
    TailIsText(image, at);
  }

  lemma TailIsText(image: string, at: nat)
    requires at <= |image| && (at < |image| ==> image[at] == '@')
    ensures image[..at] + (if at < |image| then "@" + image[at + 1..] else "") == image
  {
  }

  lemma {:induction false} LastBehind(pre: string, s: string, c: char)
    requires '$' !in pre
    ensures LastOutside(pre + s, c) ==
            var r := LastOutside(s, c); if r >= 0 then |pre| + r else LastOutside(pre, c)
  {
    if pre == "" {
      assert pre + s == s;
    } else {
      LastBehind(pre[1..], s, c);
      assert (pre + s)[1..] == pre[1..] + s;
      assert Skip(pre) == 1 && Skip(pre + s) == 1;
    }
  }

  lemma {:induction false} NoneInside(s: string, c: char)
    requires c !in s
    ensures LastOutside(s, c) == -1
  {
  }

  lemma LastBehindBraced(s: string, inner: string, rest: string, c: char)
    requires |s| >= 2 && s[0] == '$' && s[1] == '{' && s[2..] == inner + ['}'] + rest && '}' !in inner
    requires c != '$' && LastOutside(rest, c) == -1
    ensures LastOutside(s, c) == -1
  {
    FindEnds(inner, '}', rest);
    assert s[|inner| + 3..] == s[2..][|inner| + 1..] == rest;
  }

  lemma LastBehindBare(s: string, name: string, rest: string, c: char)
    requires s != "" && s[0] == '$' && IsName(name) && s[1..] == name + rest
    requires c !in name && c != '$' && LastOutside(rest, c) == -1
    ensures LastOutside(s, c) == -1
  {
    assert s[1] == name[0];
    LastBehind(name, rest, c);
    NoneInside(name, c);
  }

  lemma LastBehindToken(token: Token, rest: string, c: char)
    requires token.Fits(rest) && (c == ':' || c == '/') && LastOutside(rest, c) == -1
    ensures LastOutside(token.Text() + rest, c) == -1
  {
    match token
    case Literal(b) =>
      assert (token.Text() + rest)[1..] == rest;
    case Bare(name) =>
      BareLayout(name, rest);
      LastBehindBare(token.Text() + rest, name, rest, c);
    case Braced(name, fallback) =>
      BracedLayout(name, fallback, rest);
      LastBehindBraced(token.Text() + rest, name + fallback, rest, c);
  }

  /** No separator stands outside the braces of a tag. */
  lemma {:induction false} LastInTokens(tokens: seq<Token>, c: char)
    requires WellFormed(tokens) && (c == ':' || c == '/')
    ensures LastOutside(Render(tokens), c) == -1
  {
    if tokens != [] {
      LastInTokens(tokens[1..], c);
      LastBehindToken(tokens[0], Render(tokens[1..]), c);
    }
  }

  lemma NoAtInToken(token: Token, rest: string)
    requires token.Fits(rest)
    ensures '@' !in token.Text()
  {
    if token.Braced? {
      FallbackIsPlain(token.fallback);
    }
  }

  lemma {:induction false} NoAtInTokens(tokens: seq<Token>)
    requires WellFormed(tokens)
    ensures '@' !in Render(tokens)
  {
    if tokens != [] {
      NoAtInTokens(tokens[1..]);
      NoAtInToken(tokens[0], Render(tokens[1..]));
    }
  }

  /** The colon in front of a tag is the last separator. */
  lemma SeparatorsFound(repository: string, text: string)
    requires '$' !in repository && LastOutside(text, ':') == -1 && LastOutside(text, '/') == -1
    ensures LastOutside(repository + ":" + text, ':') == |repository| > LastOutside(repository + ":" + text, '/')
  {
    assert repository + ":" + text == repository + (":" + text);
    assert (":" + text)[1..] == text;
    LastBehind(repository, ":" + text, ':');
    LastBehind(repository + ":", text, '/');
  }

  lemma NameIsRead(repository: string, tag: seq<Token>)
    requires Plain(repository) && WellFormed(tag)
    ensures ReadName(repository + ":" + Render(tag)) == Some((Some(repository), tag))
  {
    var text := Render(tag);
    var name := repository + ":" + text;
    LastInTokens(tag, ':');
    LastInTokens(tag, '/');
    SeparatorsFound(repository, text);
    RenderedParses(tag);
    assert name[..|repository|] == repository && name[|repository| + 1..] == text;
    assert name[0] != '$';
  }

  lemma RenderLone(token: Token)
    ensures Render([token]) == token.Text()
  {
    assert [token][1..] == [] && Render([]) == "" && token.Text() + "" == token.Text();
  }

  lemma PlaceholderIsRead(tag: seq<Token>)
    requires IsLone(tag)
    ensures ReadName(Render(tag)) == Some((None, tag))
  {
    var token := tag[0];
    assert tag == [token];
    RenderLone(token);
    if token.Bare? {
      assert token.Text()[1..] == token.name && IsNameStart(token.Text()[1]);
    } else {
      assert token.name + token.fallback == token.name;
      assert token.Text()[2..|token.Text()| - 1] == token.name;
    }
  }

  lemma LoneIsWellFormed(tag: seq<Token>)
    requires IsLone(tag)
    ensures WellFormed(tag)
  {
    assert tag[1..] == [] && Render(tag[1..]) == "";
  }

  lemma ValidNameIsRead(repository: Option<string>, tag: seq<Token>, repositories: string -> bool)
    requires ValidName(repository, tag, repositories)
    ensures var name := (if repository.None? then "" else repository.value + ":") + Render(tag);
            '@' !in name && ReadName(name) == Some((repository, tag))
  {
    if repository.None? {
      LoneIsWellFormed(tag);
      PlaceholderIsRead(tag);
      assert "" + Render(tag) == Render(tag);
    } else {
      NameIsRead(repository.value, tag);
    }
    NoAtInTokens(tag);
  }

  /** Every reference of the grammar is read back as itself, so a text has one
      reading. */
  lemma TextIsRead(r: Reference, repositories: string -> bool, digests: string -> bool)
    requires r.Valid(repositories, digests)
    ensures ReadReference(r.Text()) == Some(r)
  {
    ValidNameIsRead(r.repository, r.tag, repositories);
    ReferenceIsRead(r);
  }

  lemma ReferenceIsRead(r: Reference)
    requires '@' !in r.Name() && ReadName(r.Name()) == Some((r.repository, r.tag))
    ensures ReadReference(r.Text()) == Some(r)
  {
    AtIsFound(r.Name(), r.digest);
  }

  lemma AtIsFound(name: string, digest: Option<string>)
    requires '@' !in name
    ensures var text := name + if digest.None? then "" else "@" + digest.value;
            && Find(text, '@') == |name| && text[..|name|] == name
            && (digest.None? ==> |text| == |name|)
            && (digest.Some? ==> |text| > |name| && text[|name| + 1..] == digest.value)
  {
    if digest.Some? {
      FindEnds(name, '@', digest.value);
      assert name + "@" + digest.value == name + ("@" + digest.value);
    }
  }

  lemma Regroup(a: string, b: string, c: string, d: string, e: string)
    ensures a + (b + c + d) + e == (a + b) + (c + (d + e))
  {
  }

  lemma ScanAround(pre: string, head: string, tag: seq<Token>, tail: string, post: string)
    requires WellFormed(tag) && '$' !in pre && '$' !in head && '$' !in tail
    requires tail + post == "" || !IsNameChar((tail + post)[0])
    ensures Scan(pre + (head + Render(tag) + tail) + post) == NamesIn(tag) + Scan(post)
  {
    Regroup(pre, head, Render(tag), tail, post);
    ScanSkips(pre + head, Render(tag) + (tail + post));
    ScanTokens(tag, tail + post);
    ScanSkips(tail, post);
  }

  /** Behind text without a dollar sign and in front of anything that cannot continue
      a name, the scanner finds in an admitted reference exactly the variables of its
      placeholders. */
  lemma ScanFindsPlaceholders(pre: string, r: Reference, post: string, repositories: string -> bool,
                              digests: string -> bool)
    requires r.Valid(repositories, digests)
    requires '$' !in pre && (post == "" || !IsNameChar(post[0]))
    ensures Scan(pre + r.Text() + post) == NamesIn(r.tag) + Scan(post)
  {
    if r.repository.None? {
      LoneIsWellFormed(r.tag);
    }
    ScanAround(pre, r.Head(), r.tag, r.Tail(), post);
  }
}
