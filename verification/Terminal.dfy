/** Cleaning and cutting the output of one-off commands
    (internal/compose/oneoff.go). Texts to clean are sequences of runes, texts to cut
    sequences of bytes. */
module Terminal {
  const ESC := 0x1b as char
  const CSI := 0x9b as char
  const BEL := 0x07 as char
  const ST := 0x9c as char

  predicate IsControl(c: char) {
    c as int < 0x20 || c as int == 0x7f || 0x80 <= c as int <= 0x9f
  }

  predicate IsClean(s: seq<char>) {
    forall i | 0 <= i < |s| :: !IsControl(s[i]) || s[i] == '\n' || s[i] == '\t'
  }

  predicate IsFinal(c: char) {
    0x40 <= c as int <= 0x7e
  }

  predicate IsString(c: char) {
    c == ']' || c == 'P' || c == 'X' || c == '^' || c == '_'
  }

  predicate IsDesignator(c: char) {
    c == '(' || c == ')' || c == '*' || c == '+' || c == '#' || c == '%'
  }

  /** The length of the rest of a control sequence: all of it, if it never ends. */
  function ControlLength(s: seq<char>): (n: nat)
    ensures n <= |s|
  {
    if s == [] then 0 else if IsFinal(s[0]) then 1 else 1 + ControlLength(s[1..])
  }

  /** A terminator of a control string stands at the place. */
  predicate Terminates(s: seq<char>, i: nat)
    requires i < |s|
  {
    s[i] == BEL || s[i] == ST || (s[i] == ESC && i + 1 < |s| && s[i + 1] == '\\')
  }

  /** The length of the rest of a control string. */
  function StringLength(s: seq<char>): (n: nat)
    ensures n <= |s|
  {
    if s == [] then 0
    else if Terminates(s, 0) then (if s[0] == ESC then 2 else 1)
    else 1 + StringLength(s[1..])
  }

  function EscapeLength(s: seq<char>): (n: nat)
    requires s != []
    ensures 0 < n <= |s|
  {
    if |s| == 1 then 1
    else if s[1] == '[' then 2 + ControlLength(s[2..])
    else if IsString(s[1]) then 2 + StringLength(s[2..])
    else if IsDesignator(s[1]) then (if |s| > 2 then 3 else 2)
    else 2
  }

  /** How many runes the first one takes with it. */
  function Consumed(s: seq<char>): (n: nat)
    requires s != []
    ensures 0 < n <= |s|
  {
    if s[0] == ESC then EscapeLength(s) else if s[0] == CSI then 1 + ControlLength(s[1..]) else 1
  }

  /** The output after the first rune. */
  function Emit(s: seq<char>, output: seq<char>): seq<char>
    requires s != []
  {
    var c := s[0];
    if c == ESC || c == CSI then output
    else if c == '\r' then (if |s| > 1 && s[1] == '\n' then output else output + ['\n'])
    else if c as int == 8 then (if output == [] then [] else output[..|output| - 1])
    else if IsControl(c) && c != '\n' && c != '\t' then output
    else output + [c]
  }

  function Sanitize(s: seq<char>, output: seq<char> := []): seq<char>
    decreases |s|
  {
    if s == [] then output else Sanitize(s[Consumed(s)..], Emit(s, output))
  }

  // ----- The loops

  /** The place of the last rune of a control sequence whose parameters start at the
      given one. */
  method SkipCSISequence(runes: seq<char>, start: nat) returns (last: int)
    requires start <= |runes|
    ensures last == start + ControlLength(runes[start..]) - 1
  {
    var cursor := start;
    while cursor < |runes|
      invariant start <= cursor <= |runes|
      invariant ControlLength(runes[start..]) == cursor - start + ControlLength(runes[cursor..])
    {
      assert runes[cursor..][1..] == runes[cursor + 1..];
      if IsFinal(runes[cursor]) {
        return cursor;
      }
      cursor := cursor + 1;
    }
    last := |runes| - 1;
  }

  method SkipControlString(runes: seq<char>, start: nat) returns (last: int)
    requires start <= |runes|
    ensures last == start + StringLength(runes[start..]) - 1
  {
    var cursor := start;
    while cursor < |runes|
      invariant start <= cursor <= |runes|
      invariant StringLength(runes[start..]) == cursor - start + StringLength(runes[cursor..])
    {
      assert runes[cursor..][1..] == runes[cursor + 1..];
      if runes[cursor] == BEL || runes[cursor] == ST {
        return cursor;
      }
      if runes[cursor] == ESC && cursor + 1 < |runes| && runes[cursor + 1] == '\\' {
        return cursor + 1;
      }
      cursor := cursor + 1;
    }
    last := |runes| - 1;
  }

  method SkipTerminalEscape(runes: seq<char>, index: nat) returns (last: int)
    requires index < |runes| && runes[index] == ESC
    ensures last == index + EscapeLength(runes[index..]) - 1
  {
    assert forall k | 0 <= k <= |runes| - index :: runes[index..][k..] == runes[index + k..];
    if index + 1 >= |runes| {
      return index;
    }
    var kind := runes[index + 1];
    if kind == '[' {
      last := SkipCSISequence(runes, index + 2);
    } else if IsString(kind) {
      last := SkipControlString(runes, index + 2);
    } else if IsDesignator(kind) {
      last := if index + 2 < |runes| then index + 2 else |runes| - 1;
    } else {
      last := index + 1;
    }
  }

  /** One rune: the output after it, and the place of the last rune it takes with it. */
  method SanitizeRune(runes: seq<char>, index: nat, before: seq<char>, ghost rest: seq<char>)
      returns (output: seq<char>, last: int)
    requires index < |runes| && rest == runes[index..]
    ensures output == Emit(rest, before) && last == index + Consumed(rest) - 1
    ensures rest[Consumed(rest)..] == runes[last + 1..]
  {
    var character := runes[index];
    output, last := before, index;
    if character == ESC {
      last := SkipTerminalEscape(runes, index);
    } else if character == CSI {
      last := SkipCSISequence(runes, index + 1);
      assert rest[1..] == runes[index + 1..];
    } else if character == '\r' {
      if !(index + 1 < |runes| && runes[index + 1] == '\n') {
        output := output + ['\n'];
      }
    } else if character as int == 8 {
      if |output| > 0 {
        output := output[..|output| - 1];
      }
    } else if character == '\n' || character == '\t' {
      output := output + [character];
    } else if !IsControl(character) {
      output := output + [character];
    }
  }

  method SanitizeTerminalOutput(runes: seq<char>) returns (output: seq<char>)
    ensures output == Sanitize(runes)
  {
    output := [];
    var index := 0;
    ghost var rest := runes;
    while index < |runes|
      invariant 0 <= index <= |runes| && rest == runes[index..]
      invariant Sanitize(rest, output) == Sanitize(runes)
    {
      var last;
      output, last := SanitizeStep(runes, index, output, rest);
      index := last + 1;
      rest := runes[index..];
    }
  }

  method SanitizeStep(runes: seq<char>, index: nat, before: seq<char>, ghost rest: seq<char>)
      returns (output: seq<char>, last: int)
    requires index < |runes| && rest == runes[index..]
    ensures index <= last < |runes|
    ensures Sanitize(runes[last + 1..], output) == Sanitize(rest, before)
  {
    output, last := SanitizeRune(runes, index, before, rest);
  }

  // ----- What is left

  /** The output is clean and no longer than the input. */
  lemma {:induction false} SanitizedIsClean(s: seq<char>, output: seq<char>)
    requires IsClean(output)
    ensures IsClean(Sanitize(s, output)) && |Sanitize(s, output)| <= |output| + |s|
    decreases |s|
  {
    if s != [] {
      SanitizedIsClean(s[Consumed(s)..], Emit(s, output));
    }
  }

  /** Clean text stays as it is, whatever follows. */
  lemma {:induction false} CleanPassesThrough(clean: seq<char>, rest: seq<char>, output: seq<char>)
    requires IsClean(clean)
    ensures Sanitize(clean + rest, output) == Sanitize(rest, output + clean)
    decreases |clean|
  {
    if clean == [] {
      assert clean + rest == rest && output + clean == output;
    } else {
      assert (clean + rest)[1..] == clean[1..] + rest;
      assert output + [clean[0]] + clean[1..] == output + clean;
      CleanPassesThrough(clean[1..], rest, output + [clean[0]]);
    }
  }

  /** Cleaning twice is cleaning once. */
  lemma SanitizeIsIdempotent(s: seq<char>)
    ensures Sanitize(Sanitize(s)) == Sanitize(s)
  {
    var clean := Sanitize(s);
    SanitizedIsClean(s, []);
    CleanPassesThrough(clean, [], []);
    assert clean + [] == clean && [] + clean == clean;
  }

  /** Complete sequences: a control sequence with its final rune, a control string with
      its terminator, a designator with its set, and any other escaped rune. */
  datatype Sequence =
    | Control(parameters: seq<char>, final: char, short: bool)
    | ControlString(kind: char, body: seq<char>, terminator: seq<char>)
    | Designated(kind: char, what: char)
    | Escaped(c: char)
  {
    function Text(): seq<char> {
      match this
      case Control(parameters, final, short) => (if short then [CSI] else [ESC, '[']) + (parameters + [final])
      case ControlString(kind, body, terminator) => [ESC, kind] + (body + terminator)
      case Designated(kind, what) => [ESC, kind, what]
      case Escaped(c) => [ESC, c]
    }

    predicate Valid() {
      match this
      case Control(parameters, final, _) =>
        '@' <= final <= '~' && forall i | 0 <= i < |parameters| :: !('@' <= parameters[i] <= '~')
      case ControlString(kind, body, terminator) =>
        && kind in "]PX^_" && (terminator == [BEL] || terminator == [ST] || terminator == [ESC, '\\'])
        && forall i | 0 <= i < |body| :: !Terminates(body + terminator, i)
      case Designated(kind, _) => kind in "()*+#%"
      case Escaped(c) => c !in "[]PX^_()*+#%"
    }
  }

  lemma {:induction false} ControlEnds(parameters: seq<char>, final: char, rest: seq<char>)
    requires IsFinal(final) && forall i | 0 <= i < |parameters| :: !IsFinal(parameters[i])
    ensures ControlLength(parameters + [final] + rest) == |parameters| + 1
  {
    if parameters != [] {
      ControlEnds(parameters[1..], final, rest);
      assert (parameters + [final] + rest)[1..] == parameters[1..] + [final] + rest;
    }
  }

  lemma {:induction false} StringEnds(body: seq<char>, terminator: seq<char>, rest: seq<char>)
    requires terminator == [BEL] || terminator == [ST] || terminator == [ESC, '\\']
    requires forall i | 0 <= i < |body| :: !Terminates(body + terminator, i)
    ensures StringLength(body + terminator + rest) == |body| + |terminator|
  {
    if body != [] {
      forall i | 0 <= i < |body[1..]| ensures !Terminates(body[1..] + terminator, i) {
        assert !Terminates(body + terminator, i + 1);
      }
      StringEnds(body[1..], terminator, rest);
      assert (body + terminator + rest)[1..] == body[1..] + terminator + rest;
      assert !Terminates(body + terminator, 0);
    }
  }

  lemma SequenceIsConsumed(e: Sequence, rest: seq<char>)
    requires e.Valid()
    ensures var s := e.Text() + rest;
            (s[0] == ESC || s[0] == CSI) && Consumed(s) == |e.Text()| && s[|e.Text()|..] == rest
  {
    var s := e.Text() + rest;
    match e
    case Control(parameters, final, short) => ControlIsConsumed(parameters, final, short, rest);
    case ControlString(kind, body, terminator) => StringIsConsumed(kind, body, terminator, rest);
    case Designated(_, _) =>
    case Escaped(_) =>
  }

  lemma ControlIsConsumed(parameters: seq<char>, final: char, short: bool, rest: seq<char>)
    requires Control(parameters, final, short).Valid()
    ensures var text := Control(parameters, final, short).Text();
            Consumed(text + rest) == |text| && (text + rest)[|text|..] == rest
  {
    var text := Control(parameters, final, short).Text();
    ControlEnds(parameters, final, rest);
    if short {
      assert (text + rest)[1..] == parameters + [final] + rest;
    } else {
      assert (text + rest)[2..] == parameters + [final] + rest;
    }
  }

  lemma StringIsConsumed(kind: char, body: seq<char>, terminator: seq<char>, rest: seq<char>)
    requires ControlString(kind, body, terminator).Valid()
    ensures var text := ControlString(kind, body, terminator).Text();
            Consumed(text + rest) == |text| && (text + rest)[|text|..] == rest
  {
    var text := ControlString(kind, body, terminator).Text();
    StringEnds(body, terminator, rest);
    assert (text + rest)[2..] == body + terminator + rest;
  }

  /** A complete sequence behind clean text vanishes, and nothing else with it. */
  lemma SequenceVanishes(clean: seq<char>, e: Sequence, rest: seq<char>)
    requires IsClean(clean) && e.Valid()
    ensures Sanitize(clean + (e.Text() + rest)) == Sanitize(clean + rest)
  {
    CleanPassesThrough(clean, e.Text() + rest, []);
    CleanPassesThrough(clean, rest, []);
    SequenceIsConsumed(e, rest);
  }

  /** A backspace behind clean text takes its last rune away, and nothing at the start
      of a line of output that is still empty. */
  lemma BackspaceErases(clean: seq<char>, c: char, rest: seq<char>)
    requires IsClean(clean + [c])
    ensures Sanitize(clean + [c] + [8 as char] + rest) == Sanitize(clean + rest)
    ensures Sanitize([8 as char] + rest) == Sanitize(rest)
  {
    var typed := clean + [c];
    assert typed + [8 as char] + rest == typed + ([8 as char] + rest);
    CleanPassesThrough(typed, [8 as char] + rest, []);
    assert forall i | 0 <= i < |clean| :: clean[i] == typed[i];
    CleanPassesThrough(clean, rest, []);
    assert [] + typed == typed && [] + clean == clean && typed[..|typed| - 1] == clean;
    assert ([8 as char] + rest)[1..] == rest;
  }

  /** A carriage return ends the line, alone or in front of a line feed. */
  lemma ReturnEndsLine(clean: seq<char>, rest: seq<char>)
    requires IsClean(clean)
    ensures Sanitize(clean + "\r\n" + rest) == Sanitize(clean + "\n" + rest)
    ensures rest == [] || rest[0] != '\n' ==> Sanitize(clean + "\r" + rest) == Sanitize(clean + "\n" + rest)
  {
    assert clean + "\n" + rest == clean + ("\n" + rest) && clean + "\r" + rest == clean + ("\r" + rest);
    assert clean + "\r\n" + rest == clean + ("\r\n" + rest);
    CleanPassesThrough(clean, "\n" + rest, []);
    CleanPassesThrough(clean, "\r" + rest, []);
    CleanPassesThrough(clean, "\r\n" + rest, []);
    assert ("\r\n" + rest)[1..] == "\n" + rest && ("\n" + rest)[1..] == rest && ("\r" + rest)[1..] == rest;
  }

  /** Any other control rune that starts no sequence vanishes alone. */
  lemma ControlVanishes(clean: seq<char>, c: char, rest: seq<char>)
    requires IsClean(clean) && (c as int < 32 || 127 <= c as int <= 159)
    requires c as int !in {8, 9, 10, 13, 27, 155}
    ensures Sanitize(clean + [c] + rest) == Sanitize(clean + rest)
  {
    assert clean + [c] + rest == clean + ([c] + rest);
    CleanPassesThrough(clean, [c] + rest, []);
    CleanPassesThrough(clean, rest, []);
    assert ([c] + rest)[1..] == rest;
  }

  // ----- Cutting

  predicate IsTail(b: int) {
    0x80 <= b <= 0xbf
  }

  /** The length of the character a text starts with (section 4 of RFC 3629), or 0. */
  function CharacterLength(s: seq<int>): (n: nat)
    requires s != []
    ensures n <= 4 && n <= |s|
  {
    var a := s[0];
    var b := if |s| > 1 then s[1] else 0;
    var c := if |s| > 2 then s[2] else 0;
    var d := if |s| > 3 then s[3] else 0;
    if 0 <= a <= 0x7f then 1
    else if 0xc2 <= a <= 0xdf && IsTail(b) then 2
    else if 0xe0 <= a <= 0xef && IsTail(b) && IsTail(c) && (a == 0xe0 ==> b >= 0xa0) && (a == 0xed ==> b <= 0x9f) then 3
    else if 0xf0 <= a <= 0xf4 && IsTail(b) && IsTail(c) && IsTail(d) && (a == 0xf0 ==> b >= 0x90)
            && (a == 0xf4 ==> b <= 0x8f) then 4
    else 0
  }

  predicate ValidUTF8(s: seq<int>)
    decreases |s|
  {
    s == [] || (CharacterLength(s) > 0 && ValidUTF8(s[CharacterLength(s)..]))
  }

  /** Cuts a text that is too long to its longest valid prefix within the limit; of a
      valid text that drops at most three bytes more than it must. */
  method TruncateUTF8(value: seq<int>, maxBytes: int) returns (cut: seq<int>, truncated: bool)
    ensures maxBytes <= 0 ==> cut == []
    ensures maxBytes > 0 && |value| <= maxBytes ==> cut == value
    ensures truncated <==> |value| > maxBytes && value != []
    ensures maxBytes > 0 && truncated ==>
              && cut <= value && |cut| <= maxBytes && ValidUTF8(cut)
              && (forall k | |cut| < k <= maxBytes :: !ValidUTF8(value[..k]))
              && (ValidUTF8(value) ==> |cut| >= maxBytes - 3)
  {
    if maxBytes <= 0 {
      return [], value != [];
    }
    if |value| <= maxBytes {
      return value, false;
    }
    cut := value[..maxBytes];
    ghost var kept := if ValidUTF8(value) then LongestValid(value, maxBytes) else 0;
    while !ValidUTF8(cut)
      invariant |cut| <= maxBytes && cut == value[..|cut|]
      invariant ValidUTF8(value) ==> kept <= |cut|
      invariant forall k | |cut| < k <= maxBytes :: !ValidUTF8(value[..k])
      decreases |cut|
    {
      cut := cut[..|cut| - 1];
    }
    truncated := true;
  }

  /** The end of the last character that a limit leaves whole. */
  ghost function LongestValid(s: seq<int>, limit: nat): (n: nat)
    requires ValidUTF8(s) && limit <= |s|
    ensures n <= limit <= n + 3 && ValidUTF8(s[..n])
    decreases |s|
  {
    if s == [] || CharacterLength(s) > limit then 0
    else
      var first := CharacterLength(s);
      var n := LongestValid(s[first..], limit - first);
      assert s[..first + n][first..] == s[first..][..n];
      first + n
  }

  // ----- Valid texts are encoded scalar values

  /** A Unicode scalar value: a code point that is no surrogate. */
  type Scalar = u: int | 0 <= u < 0xd800 || 0xe000 <= u <= 0x10ffff

  /** The bytes of a scalar value: its bits, six in each byte behind the first. */
  function BytesOf(u: Scalar): seq<int> {
    if u < 0x80 then [u]
    else if u < 0x800 then [0xc0 + u / 64, 0x80 + u % 64]
    else if u < 0x1_0000 then [0xe0 + u / 64 / 64, 0x80 + u / 64 % 64, 0x80 + u % 64]
    else [0xf0 + u / 64 / 64 / 64, 0x80 + u / 64 / 64 % 64, 0x80 + u / 64 % 64, 0x80 + u % 64]
  }

  function TextOf(scalars: seq<Scalar>): seq<int> {
    if scalars == [] then [] else BytesOf(scalars[0]) + TextOf(scalars[1..])
  }

  lemma ScalarIsCharacter(u: Scalar, rest: seq<int>)
    ensures CharacterLength(BytesOf(u) + rest) == |BytesOf(u)|
  {
    var s := BytesOf(u) + rest;
    assert forall i | 0 <= i < |BytesOf(u)| :: s[i] == BytesOf(u)[i];
  }

  lemma SixBits(high: nat, low: nat)
    requires low < 64
    ensures (high * 64 + low) / 64 == high && (high * 64 + low) % 64 == low
  {
  }

  lemma TwoBytes(a: nat, b: nat)
    requires 2 <= a < 32 && b < 64
    ensures BytesOf(a * 64 + b) == [0xc0 + a, 0x80 + b]
  {
    SixBits(a, b);
  }

  lemma ThreeBytes(a: nat, b: nat, c: nat)
    requires a < 16 && b < 64 && c < 64 && (a == 0 ==> b >= 32) && (a == 13 ==> b < 32)
    ensures BytesOf((a * 64 + b) * 64 + c) == [0xe0 + a, 0x80 + b, 0x80 + c]
  {
    SixBits(a * 64 + b, c);
    SixBits(a, b);
  }

  lemma FourBytes(a: nat, b: nat, c: nat, d: nat)
    requires a < 5 && b < 64 && c < 64 && d < 64 && (a == 0 ==> b >= 16) && (a == 4 ==> b < 16)
    ensures BytesOf(((a * 64 + b) * 64 + c) * 64 + d) == [0xf0 + a, 0x80 + b, 0x80 + c, 0x80 + d]
  {
    SixBits((a * 64 + b) * 64 + c, d);
    SixBits(a * 64 + b, c);
    SixBits(a, b);
  }

  lemma CharacterIsScalar(s: seq<int>) returns (u: Scalar)
    requires s != [] && CharacterLength(s) > 0
    ensures BytesOf(u) == s[..CharacterLength(s)]
  {
    var n := CharacterLength(s);
    if n == 1 {
      u := s[0];
    } else if n == 2 {
      u := (s[0] - 0xc0) * 64 + (s[1] - 0x80);
      TwoBytes(s[0] - 0xc0, s[1] - 0x80);
      assert s[..2] == [s[0], s[1]];
    } else if n == 3 {
      u := ((s[0] - 0xe0) * 64 + (s[1] - 0x80)) * 64 + (s[2] - 0x80);
      ThreeBytes(s[0] - 0xe0, s[1] - 0x80, s[2] - 0x80);
      assert s[..3] == [s[0], s[1], s[2]];
    } else {
      u := (((s[0] - 0xf0) * 64 + (s[1] - 0x80)) * 64 + (s[2] - 0x80)) * 64 + (s[3] - 0x80);
      FourBytes(s[0] - 0xf0, s[1] - 0x80, s[2] - 0x80, s[3] - 0x80);
      assert s[..4] == [s[0], s[1], s[2], s[3]];
    }
  }

  lemma {:induction false} TextIsValid(scalars: seq<Scalar>)
    ensures ValidUTF8(TextOf(scalars))
  {
    if scalars != [] {
      var rest := TextOf(scalars[1..]);
      ScalarIsCharacter(scalars[0], rest);
      TextIsValid(scalars[1..]);
      assert (BytesOf(scalars[0]) + rest)[|BytesOf(scalars[0])|..] == rest;
    }
  }

  lemma TextGrows(u: Scalar, scalars: seq<Scalar>)
    ensures TextOf([u] + scalars) == BytesOf(u) + TextOf(scalars)
  {
    assert ([u] + scalars)[1..] == scalars;
  }

  lemma {:induction false} ValidIsText(s: seq<int>) returns (scalars: seq<Scalar>)
    requires ValidUTF8(s)
    ensures TextOf(scalars) == s
    decreases |s|
  {
    if s == [] {
      scalars := [];
    } else {
      var n := CharacterLength(s);
      var u := CharacterIsScalar(s);
      var rest := ValidIsText(s[n..]);
      TextGrows(u, rest);
      scalars := [u] + rest;
      assert s == s[..n] + s[n..];
    }
  }

  /** A text is valid exactly if it is the encoding of scalar values. */
  lemma ValidIffEncoded(s: seq<int>)
    ensures ValidUTF8(s) <==> exists scalars: seq<Scalar> :: TextOf(scalars) == s
  {
    if ValidUTF8(s) {
      var scalars := ValidIsText(s);
    }
    forall scalars: seq<Scalar> | TextOf(scalars) == s ensures ValidUTF8(s) {
      TextIsValid(scalars);
    }
  }
}
