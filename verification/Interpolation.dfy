/** Compose placeholders in image references: the validator that admits them
    (internal/application/application.go) and the separate scanner that looks for
    their variables in a Compose file (internal/compose/runner.go). Strings are
    sequences of bytes. The grammars of repositories and digests are parameters. */
module Interpolation {
  import opened Basics
  import opened RegistryPaths

  predicate IsNameStart(c: char) {
    c == '_' || 'A' <= c <= 'Z' || 'a' <= c <= 'z'
  }

  predicate IsNameChar(c: char) {
    IsNameStart(c) || '0' <= c <= '9'
  }

  predicate IsTagChar(c: char) {
    IsWord(c) || c == '.' || c == '-'
  }

  predicate IsName(s: string) {
    s != "" && IsNameStart(s[0]) && forall i | 0 <= i < |s| :: IsNameChar(s[i])
  }

  /** The bytes that a placeholder is searched for before anything else. */
  predicate IsUnwanted(c: char) {
    || c == '$' || c == '{' || c == '}' || c == ' ' || c == '\t' || c == '\r' || c == '\n' || c == '"' || c == '\''
    || c == '\\' || c == ';' || c == '#' || c == '/'
  }

  /** Where the byte first occurs, or the length. */
  function Find(s: string, c: char): (i: nat)
    ensures i <= |s| && (i < |s| ==> s[i] == c)
  {
    if s == "" || s[0] == c then 0 else 1 + Find(s[1..], c)
  }

  lemma {:induction false} FindIsFirst(s: string, c: char)
    ensures c !in s[..Find(s, c)]
  {
    if s != "" && s[0] != c {
      FindIsFirst(s[1..], c);
      assert s[..Find(s, c)] == [s[0]] + s[1..][..Find(s[1..], c)];
    }
  }

  /** The length of the longest prefix of name characters, whatever it starts with. */
  function RunLength(s: string): (n: nat)
    ensures n <= |s|
  {
    if s == "" || !IsNameChar(s[0]) then 0 else 1 + RunLength(s[1..])
  }

  lemma {:induction false} RunIsLongest(s: string)
    ensures var n := RunLength(s);
            (n < |s| ==> !IsNameChar(s[n])) && forall k | 0 <= k < n :: IsNameChar(s[k])
  {
    if s != "" && IsNameChar(s[0]) {
      RunIsLongest(s[1..]);
      assert forall k | 0 < k < |s| :: s[k] == s[1..][k - 1];
    }
  }

  /** The length of the longest name a string starts with. */
  function NameLength(s: string): (n: nat)
    ensures n <= |s|
  {
    if s == "" || !IsNameStart(s[0]) then 0 else RunLength(s)
  }

  lemma NameIsLongest(s: string)
    ensures var n := NameLength(s);
            && (n == 0 <==> s == "" || !IsNameStart(s[0]))
            && (n > 0 ==> IsName(s[..n]) && (n < |s| ==> !IsNameChar(s[n])))
            && forall k | 0 <= k < n :: IsNameChar(s[k])
  {
    RunIsLongest(s);
  }

  // ----- The grammar of a tag

  /** A byte that stands for itself, $NAME, or ${NAME} with an optional fallback. */
  datatype Token = Literal(c: char) | Bare(name: string) | Braced(name: string, fallback: string) {
    function Text(): string {
      match this
      case Literal(c) => [c]
      case Bare(name) => "$" + name
      case Braced(name, fallback) => ['$', '{'] + (name + fallback) + ['}']
    }

    /** The token is one of the grammar and is read as such in front of the rest:
        a bare name ends where its characters end. */
    predicate Fits(rest: string) {
      match this
      case Literal(c) => IsTagChar(c)
      case Bare(name) => IsName(name) && (rest == "" || !IsNameChar(rest[0]))
      case Braced(name, fallback) => IsName(name) && ValidFallback(fallback)
    }
  }

  predicate IsOperator(c: char) {
    c == '-' || c == '?' || c == '+' || c == '='
  }

  function OperatorLength(fallback: string): (n: nat)
    ensures n <= |fallback|
  {
    if |fallback| >= 2 && fallback[0] == ':' && IsOperator(fallback[1]) then 2
    else if |fallback| >= 1 && IsOperator(fallback[0]) then 1
    else 0
  }

  predicate ValidFallback(fallback: string) {
    var n := OperatorLength(fallback);
    fallback == "" || (n > 0 && |fallback| - n <= 128 && forall i | n <= i < |fallback| :: IsTagChar(fallback[i]))
  }

  function Render(tokens: seq<Token>): string {
    if tokens == [] then "" else tokens[0].Text() + Render(tokens[1..])
  }

  predicate WellFormed(tokens: seq<Token>) {
    tokens == [] || (tokens[0].Fits(Render(tokens[1..])) && WellFormed(tokens[1..]))
  }

  function NamesIn(tokens: seq<Token>): set<string> {
    if tokens == [] then {}
    else (if tokens[0].Literal? then {} else {tokens[0].name}) + NamesIn(tokens[1..])
  }

  /** The tag when every placeholder is replaced by a word. */
  function Substitute(tokens: seq<Token>, words: seq<string>): string
    requires |words| == |tokens|
  {
    if tokens == [] then ""
    else (if tokens[0].Literal? then [tokens[0].c] else words[0]) + Substitute(tokens[1..], words[1..])
  }

  function Samples(tokens: seq<Token>): (words: seq<string>)
    ensures |words| == |tokens|
  {
    seq(|tokens|, _ => "x")
  }

  function Cons(token: Token, rest: Option<seq<Token>>): Option<seq<Token>> {
    if rest.None? then None else Some([token] + rest.value)
  }

  /** The name and the fallback between braces. */
  function ParseInner(inner: string): Option<Token> {
    var n := NameLength(inner);
    if n > 0 && ValidFallback(inner[n..]) then Some(Braced(inner[..n], inner[n..])) else None
  }

  /** The token at the head of a string and how much of it that takes. */
  function ParseOne(s: string): Option<(Token, nat)>
    requires s != ""
    ensures ParseOne(s).Some? ==> 0 < ParseOne(s).value.1 <= |s|
  {
    if s[0] != '$' then (if IsTagChar(s[0]) then Some((Literal(s[0]), 1)) else None)
    else if |s| < 2 then None
    else if s[1] == '{' then
      var closing := Find(s[2..], '}');
      if closing == |s| - 2 || ParseInner(s[2..2 + closing]).None? then None
      else Some((ParseInner(s[2..2 + closing]).value, closing + 3))
    else if NameLength(s[1..]) == 0 then None
    else Some((Bare(s[1..1 + NameLength(s[1..])]), 1 + NameLength(s[1..])))
  }

  function Parse(s: string): Option<seq<Token>>
    decreases |s|
  {
    if s == "" then Some([])
    else
      var one := ParseOne(s);
      if one.None? then None else Cons(one.value.0, Parse(s[one.value.1..]))
  }

  /** A tag the validator admits. */
  predicate AcceptedTag(tag: string) {
    && 0 < |tag| <= 255 && Parse(tag).Some?
    && ValidTag(Substitute(Parse(tag).value, Samples(Parse(tag).value)))
  }

  lemma ParsedInnerFits(inner: string, rest: string)
    requires ParseInner(inner).Some?
    ensures var token := ParseInner(inner).value; token.Text() == ['$', '{'] + inner + ['}'] && token.Fits(rest)
  {
    var n := NameLength(inner);
    NameIsLongest(inner);
    assert inner == inner[..n] + inner[n..];
  }

  lemma ParsedBareFits(s: string, n: nat)
    requires |s| > 1 && s[0] == '$' && n + 1 <= |s| && NameLength(s[1..]) == n > 0
    ensures Bare(s[1..1 + n]).Text() == s[..1 + n] && Bare(s[1..1 + n]).Fits(s[1 + n..])
  {
    NameIsLongest(s[1..]);
    assert s[1..][..n] == s[1..1 + n] && s[1..][n..] == s[1 + n..];
    assert s[..1 + n] == "$" + s[1..1 + n];
  }

  lemma Framed(t: string)
    requires |t| >= 3 && t[0] == '$' && t[1] == '{' && t[|t| - 1] == '}'
    ensures t == ['$', '{'] + t[2..|t| - 1] + ['}']
  {
  }

  lemma ParsedBracedFits(s: string, n: nat)
    requires 3 <= n <= |s| && s[0] == '$' && s[1] == '{' && s[n - 1] == '}' && ParseInner(s[2..n - 1]).Some?
    ensures var token := ParseInner(s[2..n - 1]).value; token.Text() == s[..n] && token.Fits(s[n..])
  {
    ParsedInnerFits(s[2..n - 1], s[n..]);
    Framed(s[..n]);
    assert s[..n][2..n - 1] == s[2..n - 1];
  }

  lemma ParsedOneFits(s: string)
    requires s != "" && ParseOne(s).Some?
    ensures var (token, n) := ParseOne(s).value; token.Text() == s[..n] && token.Fits(s[n..])
  {
    var n := ParseOne(s).value.1;
    if s[0] == '$' {
      if s[1] == '{' {
        ParsedBracedFits(s, n);
      } else {
        ParsedBareFits(s, n - 1);
      }
    }
  }

  /** What parses is a rendering of what it parses to. */
  lemma {:induction false} ParsedIsRendered(s: string)
    requires Parse(s).Some?
    ensures WellFormed(Parse(s).value) && Render(Parse(s).value) == s
    decreases |s|
  {
    if s != "" {
      var (token, n) := ParseOne(s).value;
      ParsedOneFits(s);
      ParsedIsRendered(s[n..]);
      assert s == s[..n] + s[n..];
      assert ([token] + Parse(s[n..]).value)[1..] == Parse(s[n..]).value;
    }
  }

  lemma {:induction false} RunEnds(name: string, rest: string)
    requires forall i | 0 <= i < |name| :: IsNameChar(name[i])
    requires rest == "" || !IsNameChar(rest[0])
    ensures RunLength(name + rest) == |name|
  {
    if name != "" {
      RunEnds(name[1..], rest);
      assert (name + rest)[1..] == name[1..] + rest;
    } else {
      assert name + rest == rest;
    }
  }

  lemma NameEnds(name: string, rest: string)
    requires IsName(name) && (rest == "" || !IsNameChar(rest[0]))
    ensures NameLength(name + rest) == |name| && (name + rest)[..|name|] == name && (name + rest)[|name|..] == rest
  {
    RunEnds(name, rest);
  }

  /** Nothing between the braces closes them or looks like a name's end. */
  lemma FallbackIsPlain(fallback: string)
    requires ValidFallback(fallback)
    ensures fallback != "" ==> !IsNameChar(fallback[0])
    ensures forall i | 0 <= i < |fallback| :: IsTagChar(fallback[i]) || fallback[i] == ':' || IsOperator(fallback[i])
  {
  }

  lemma {:induction false} FindEnds(s: string, c: char, rest: string)
    requires c !in s
    ensures Find(s + [c] + rest, c) == |s|
  {
    if s != "" {
      FindEnds(s[1..], c, rest);
      assert (s + [c] + rest)[1..] == s[1..] + [c] + rest;
    }
  }

  lemma BareLayout(name: string, rest: string)
    ensures var s := Bare(name).Text() + rest; |Bare(name).Text()| == 1 + |name| && s[0] == '$' && s[1..] == name + rest
  {
  }

  lemma BareParses(name: string, rest: string)
    requires Bare(name).Fits(rest)
    ensures ParseOne(Bare(name).Text() + rest) == Some((Bare(name), |Bare(name).Text()|))
  {
    var s := Bare(name).Text() + rest;
    BareLayout(name, rest);
    NameEnds(name, rest);
    assert s[1..1 + |name|] == s[1..][..|name|];
  }

  lemma InnerParses(name: string, fallback: string)
    requires IsName(name) && ValidFallback(fallback)
    ensures ParseInner(name + fallback) == Some(Braced(name, fallback))
    ensures '}' !in name + fallback
  {
    FallbackIsPlain(fallback);
    NameEnds(name, fallback);
  }

  lemma BracedIsRead(s: string, inner: string, rest: string)
    requires |s| >= 2 && s[0] == '$' && s[1] == '{' && s[2..] == inner + ['}'] + rest
    requires '}' !in inner && ParseInner(inner).Some?
    ensures ParseOne(s) == Some((ParseInner(inner).value, |inner| + 3))
  {
    FindEnds(inner, '}', rest);
    assert s[2..2 + |inner|] == s[2..][..|inner|] == inner;
  }

  lemma BracedLayout(name: string, fallback: string, rest: string)
    requires IsName(name) && ValidFallback(fallback)
    ensures var s, inner := Braced(name, fallback).Text() + rest, name + fallback;
            && |Braced(name, fallback).Text()| == |inner| + 3 && '}' !in inner
            && s[0] == '$' && s[1] == '{' && s[2..] == inner + ['}'] + rest
  {
    InnerParses(name, fallback);
    Surrounded(name + fallback, rest);
  }

  lemma Surrounded(inner: string, rest: string)
    ensures var s := (['$', '{'] + inner + ['}']) + rest; s[0] == '$' && s[1] == '{' && s[2..] == inner + ['}'] + rest
  {
  }

  lemma BracedParses(name: string, fallback: string, rest: string)
    requires Braced(name, fallback).Fits(rest)
    ensures var token := Braced(name, fallback); ParseOne(token.Text() + rest) == Some((token, |token.Text()|))
  {
    var text, inner := Braced(name, fallback).Text(), name + fallback;
    InnerParses(name, fallback);
    BracedLayout(name, fallback, rest);
    BracedIsRead(text + rest, inner, rest);
  }

  lemma FittingOneParses(token: Token, rest: string)
    requires token.Fits(rest)
    ensures ParseOne(token.Text() + rest) == Some((token, |token.Text()|))
  {
    match token
    case Literal(c) =>
    case Bare(name) => BareParses(name, rest);
    case Braced(name, fallback) => BracedParses(name, fallback, rest);
  }

  /** Every well-formed sequence of tokens is what its rendering parses to. */
  lemma {:induction false} RenderedParses(tokens: seq<Token>)
    requires WellFormed(tokens)
    ensures Parse(Render(tokens)) == Some(tokens)
  {
    if tokens != [] {
      var rest := Render(tokens[1..]);
      FittingOneParses(tokens[0], rest);
      RenderedParses(tokens[1..]);
      assert Render(tokens)[|tokens[0].Text()|..] == rest;
      assert tokens == [tokens[0]] + tokens[1..];
    }
  }

  // ----- Substitution

  predicate TagChars(s: string) {
    forall i | 0 <= i < |s| :: IsTagChar(s[i])
  }

  lemma {:induction false} SubstituteTagChars(tokens: seq<Token>, words: seq<string>)
    requires WellFormed(tokens) && |words| == |tokens|
    requires forall i | 0 <= i < |words| :: TagChars(words[i])
    ensures TagChars(Substitute(tokens, words))
  {
    if tokens != [] {
      SubstituteTagChars(tokens[1..], words[1..]);
    }
  }

  /** Words of tag characters make a valid tag exactly when the tag they make has a
      legal length and first byte; words that start like a tag make one whenever it
      stays within 128 bytes. */
  lemma SubstitutionIsTag(tag: string, words: seq<string>)
    requires AcceptedTag(tag) && |words| == |Parse(tag).value|
    requires forall i | 0 <= i < |words| :: TagChars(words[i])
    ensures var made := Substitute(Parse(tag).value, words);
            && (ValidTag(made) <==> 0 < |made| <= 128 && IsWord(made[0]))
            && ((forall i | 0 <= i < |words| :: words[i] != "" && IsWord(words[i][0])) ==>
                  (ValidTag(made) <==> |made| <= 128))
  {
    var tokens := Parse(tag).value;
    ParsedIsRendered(tag);
    SubstituteTagChars(tokens, words);
    assert tokens != [];
    assert Substitute(tokens, Samples(tokens))[0] == if tokens[0].Literal? then tokens[0].c else 'x';
  }

  lemma LoneTokenParses(token: Token)
    requires token.Fits("")
    ensures Parse(token.Text()) == Some([token])
  {
    assert [token][1..] == [] && Render([]) == "" && token.Text() + "" == token.Text();
    RenderedParses([token]);
  }

  /** A fallback need not be such a word: whatever its tag characters are it is
      admitted, -x for one, which is no valid tag. */
  lemma AnyFallbackIsAdmitted(name: string, word: string)
    requires IsName(name) && TagChars(word) && |word| <= 128 && |name| + |word| <= 250
    ensures AcceptedTag(Braced(name, ":-" + word).Text()) && !ValidTag("-x")
  {
    var token := Braced(name, ":-" + word);
    LoneTokenParses(token);
    assert Substitute([token], Samples([token])) == "x" + "";
    assert !IsWord("-x"[0]);
  }

  // ----- The validator

  /** The bytes looked for first can be in no placeholder that passes the rest. */
  lemma InnerIsPlain(inner: string)
    requires ParseInner(inner).Some?
    ensures inner != "" && forall i | 0 <= i < |inner| :: !IsUnwanted(inner[i])
  {
    var n := NameLength(inner);
    NameIsLongest(inner);
    FallbackIsPlain(inner[n..]);
    forall i | 0 <= i < |inner| ensures !IsUnwanted(inner[i]) {
      assert inner[i] == if i < n then inner[..n][i] else inner[n..][i - n];
    }
  }

  method ValidPlaceholderFallback(rest: string) returns (ok: bool)
    ensures ok <==> ValidFallback(rest)
  {
    if rest == "" {
      return true;
    }
    var size := if |rest| >= 2 && rest[0] == ':' && IsOperator(rest[1]) then 2
                else if IsOperator(rest[0]) then 1 else 0;
    if size == 0 || |rest| - size > 128 {
      return false;
    }
    var index := size;
    while index < |rest|
      invariant size <= index <= |rest|
      invariant forall k | size <= k < index :: IsTagChar(rest[k])
    {
      if !IsTagChar(rest[index]) {
        return false;
      }
      index := index + 1;
    }
    ok := true;
  }

  method ValidImageTagPlaceholderInner(inner: string) returns (ok: bool)
    ensures ok <==> ParseInner(inner).Some?
  {
    if ParseInner(inner).Some? {
      InnerIsPlain(inner);
    }
    if inner == "" || exists i | 0 <= i < |inner| :: IsUnwanted(inner[i]) {
      return false;
    }
    var end := 0;
    NameIsLongest(inner);
    while end < |inner| && ((end == 0 && IsNameStart(inner[end])) || (end > 0 && IsNameChar(inner[end])))
      invariant end <= NameLength(inner)
    {
      end := end + 1;
    }
    if end == 0 {
      return false;
    }
    ok := ValidPlaceholderFallback(inner[end..]);
  }

  function Sample(token: Token): char {
    if token.Literal? then token.c else 'x'
  }

  /** What the validator makes of the tag from an index on. */
  function ReadFrom(tag: string, index: nat, substituted: string): Option<string>
    requires index <= |tag|
    decreases |tag| - index
  {
    if index == |tag| then Some(substituted)
    else
      var one := ParseOne(tag[index..]);
      if one.None? then None else ReadFrom(tag, index + one.value.1, substituted + [Sample(one.value.0)])
  }

  /** The tag with an x for each placeholder, behind what is there already. */
  function Sampled(substituted: string, tokens: Option<seq<Token>>): Option<string> {
    if tokens.None? then None else Some(substituted + Substitute(tokens.value, Samples(tokens.value)))
  }

  lemma SubstituteCons(token: Token, rest: seq<Token>)
    ensures Substitute([token] + rest, Samples([token] + rest)) == [Sample(token)] + Substitute(rest, Samples(rest))
  {
    var tokens := [token] + rest;
    assert tokens[1..] == rest && Samples(tokens)[1..] == Samples(rest);
  }

  lemma SampledCons(substituted: string, token: Token, rest: Option<seq<Token>>)
    ensures Sampled(substituted, Cons(token, rest)) == Sampled(substituted + [Sample(token)], rest)
  {
    if rest.Some? {
      SubstituteCons(token, rest.value);
      var made := Substitute(rest.value, Samples(rest.value));
      assert substituted + ([Sample(token)] + made) == substituted + [Sample(token)] + made;
    }
  }

  lemma SampledNone(substituted: string)
    ensures Sampled(substituted, Parse("")) == Some(substituted)
  {
    assert substituted + "" == substituted;
  }

  lemma ParseAt(tag: string, index: nat)
    requires index < |tag|
    ensures var one := ParseOne(tag[index..]);
            Parse(tag[index..]) == if one.None? then None else Cons(one.value.0, Parse(tag[index + one.value.1..]))
  {
    var one := ParseOne(tag[index..]);
    if one.Some? {
      assert tag[index..][one.value.1..] == tag[index + one.value.1..];
    }
  }

  lemma {:induction false} ReadIsSampled(tag: string, index: nat, substituted: string)
    requires index <= |tag|
    ensures ReadFrom(tag, index, substituted) == Sampled(substituted, Parse(tag[index..]))
    decreases |tag| - index
  {
    if index == |tag| {
      assert tag[index..] == "";
      SampledNone(substituted);
    } else {
      ParseAt(tag, index);
      var one := ParseOne(tag[index..]);
      if one.Some? {
        var next, sampled := index + one.value.1, substituted + [Sample(one.value.0)];
        ReadIsSampled(tag, next, sampled);
        SampledCons(substituted, one.value.0, Parse(tag[next..]));
      }
    }
  }

  lemma AcceptedIsSampled(tag: string)
    ensures AcceptedTag(tag) <==> 0 < |tag| <= 255 && ReadFrom(tag, 0, "").Some? && ValidTag(ReadFrom(tag, 0, "").value)
  {
    ReadIsSampled(tag, 0, "");
    assert tag[0..] == tag;
    if Parse(tag).Some? {
      var made := Substitute(Parse(tag).value, Samples(Parse(tag).value));
      assert "" + made == made;
    }
  }

  /** The end of the placeholder behind a dollar sign, if it is one. */
  method PlaceholderEnd(tag: string, index: nat) returns (end: nat)
    requires index < |tag| && tag[index] == '$'
    ensures ParseOne(tag[index..]).None? ==> end == 0
    ensures ParseOne(tag[index..]).Some? ==> end == index + ParseOne(tag[index..]).value.1
  {
    if index + 1 >= |tag| {
      return 0;
    }
    var next := tag[index + 1];
    if next == '$' {
      return 0;
    }
    if next == '{' {
      var closing := Find(tag[index + 2..], '}');
      assert tag[index..][2..] == tag[index + 2..];
      if closing == |tag| - index - 2 {
        return 0;
      }
      assert tag[index..][2..2 + closing] == tag[index + 2..index + 2 + closing];
      var ok := ValidImageTagPlaceholderInner(tag[index + 2..index + 2 + closing]);
      return if ok then index + closing + 3 else 0;
    }
    if !IsNameStart(next) {
      return 0;
    }
    end := index + 2;
    ghost var n := NameLength(tag[index + 1..]);
    NameIsLongest(tag[index + 1..]);
    assert tag[index..][1..] == tag[index + 1..];
    while end < |tag| && IsNameChar(tag[end])
      invariant index + 2 <= end <= index + 1 + n
    {
      assert tag[end] == tag[index + 1..][end - index - 1];
      end := end + 1;
    }
  }

  /** Where the token at an index ends, 0 if there is none, and what stands for it. */
  method TokenEnd(tag: string, index: nat) returns (end: nat, sample: char)
    requires index < |tag|
    ensures ParseOne(tag[index..]).None? ==> end == 0
    ensures ParseOne(tag[index..]).Some? ==>
              var (token, n) := ParseOne(tag[index..]).value;
              end == index + n && sample == Sample(token)
  {
    if tag[index] != '$' {
      return if IsTagChar(tag[index]) then index + 1 else 0, tag[index];
    }
    end := PlaceholderEnd(tag, index);
    sample := 'x';
  }

  method ReadTag(tag: string) returns (read: Option<string>)
    ensures read == ReadFrom(tag, 0, "")
  {
    var substituted := "";
    var index := 0;
    while index < |tag|
      invariant index <= |tag| && ReadFrom(tag, index, substituted) == ReadFrom(tag, 0, "")
    {
      var end, sample := TokenEnd(tag, index);
      if end == 0 {
        return None;
      }
      substituted := substituted + [sample];
      index := end;
    }
    read := Some(substituted);
  }

  /** Admits exactly the renderings of well-formed tokens that make a tag when each
      placeholder is an x. */
  method ValidImageTagWithInterpolation(tag: string) returns (ok: bool)
    ensures ok <==> AcceptedTag(tag)
  {
    AcceptedIsSampled(tag);
    if tag == "" || |tag| > 255 {
      return false;
    }
    var substituted := ReadTag(tag);
    ok := substituted.Some? && ValidTag(substituted.value);
  }
}
