/** The layers below a session value (internal/auth/auth.go): base64url without
    padding (section 5 of RFC 4648) as Go decodes it, and decimal 64-bit integers.
    Strings are sequences of bytes. */
module Encoding {
  import opened Basics

  predicate IsBytes(s: string) {
    forall i | 0 <= i < |s| :: s[i] as int < 256
  }

  // ----- base64url

  type Group = n: int | 0 <= n < 64

  /** The character of a six-bit group. */
  function Digit(n: Group): char {
    if n < 26 then (n + 65) as char
    else if n < 52 then (n + 71) as char
    else if n < 62 then (n - 4) as char
    else if n == 62 then '-' else '_'
  }

  /** The group of a character. */
  function GroupOf(c: char, from: nat := 0): (n: Option<Group>)
    requires from <= 64
    decreases 64 - from
  {
    if from == 64 then None else if Digit(from) == c then Some(from) else GroupOf(c, from + 1)
  }

  /** Three bytes make four groups; what is missing at the end counts as zero and
      makes no groups of its own. */
  function ToGroups(s: string): seq<Group>
    requires IsBytes(s)
  {
    if s == "" then []
    else
      var a := s[0] as int;
      if |s| == 1 then [a / 4, a % 4 * 16]
      else
        var b := s[1] as int;
        if |s| == 2 then [a / 4, a % 4 * 16 + b / 16, b % 16 * 4]
        else
          var c := s[2] as int;
          [a / 4, a % 4 * 16 + b / 16, b % 16 * 4 + c / 64, c % 64] + ToGroups(s[3..])
  }

  function First(p: int, q: int): (c: char)
    requires 0 <= p < 64 && 0 <= q < 64
    ensures c as int == p * 4 + q / 16 < 256
  {
    (p * 4 + q / 16) as char
  }

  function Second(q: int, r: int): (c: char)
    requires 0 <= q < 64 && 0 <= r < 64
    ensures c as int == q % 16 * 16 + r / 4 < 256
  {
    (q % 16 * 16 + r / 4) as char
  }

  function Third(r: int, t: int): (c: char)
    requires 0 <= r < 64 && 0 <= t < 64
    ensures c as int == r % 4 * 64 + t < 256
  {
    (r % 4 * 64 + t) as char
  }

  /** Four groups make three bytes; bits left over at the end are ignored. */
  function FromGroups(g: seq<Group>): (r: Option<string>)
    ensures r.Some? ==> IsBytes(r.value)
  {
    if g == [] then Some("")
    else if |g| == 1 then None
    else if |g| == 2 then Some([First(g[0], g[1])])
    else if |g| == 3 then Some([First(g[0], g[1]), Second(g[1], g[2])])
    else
      var rest := FromGroups(g[4..]);
      if rest.None? then None else Some([First(g[0], g[1]), Second(g[1], g[2]), Third(g[2], g[3])] + rest.value)
  }

  function Letters(g: seq<Group>): (s: string)
    ensures |s| == |g| && forall i | 0 <= i < |g| :: s[i] == Digit(g[i])
  {
    seq(|g|, i requires 0 <= i < |g| => Digit(g[i]))
  }

  /** The groups of the letters; line breaks in between are skipped. */
  function GroupsOf(s: string): Option<seq<Group>> {
    if s == "" then Some([])
    else if s[0] == '\r' || s[0] == '\n' then GroupsOf(s[1..])
    else
      var rest := GroupsOf(s[1..]);
      if GroupOf(s[0]).None? || rest.None? then None else Some([GroupOf(s[0]).value] + rest.value)
  }

  function Encode(s: string): string
    requires IsBytes(s)
  {
    Letters(ToGroups(s))
  }

  function Decode(s: string): (r: Option<string>)
    ensures r.Some? ==> IsBytes(r.value)
  {
    var groups := GroupsOf(s);
    if groups.None? then None else FromGroups(groups.value)
  }

  lemma {:induction false} GroupOfDigit(n: Group, from: nat := 0)
    requires from <= n
    ensures GroupOf(Digit(n), from) == Some(n)
    decreases n - from
  {
    if from < n {
      GroupOfDigit(n, from + 1);
    }
  }

  lemma DigitsArePlain(n: Group)
    ensures Digit(n) != '|' && Digit(n) != '.' && Digit(n) != '\r' && Digit(n) != '\n'
  {
  }

  lemma {:induction false} LettersRoundTrip(g: seq<Group>)
    ensures GroupsOf(Letters(g)) == Some(g)
  {
    if g != [] {
      GroupOfDigit(g[0]);
      DigitsArePlain(g[0]);
      LettersRoundTrip(g[1..]);
      assert Letters(g)[1..] == Letters(g[1..]);
      assert g == [g[0]] + g[1..];
    }
  }

  lemma FirstByte(a: int, y: int)
    requires 0 <= a < 256 && 0 <= y < 16
    ensures First(a / 4, a % 4 * 16 + y) == a as char
  {
    assert (a % 4 * 16 + y) / 16 == a % 4;
  }

  lemma SecondByte(x: int, b: int, y: int)
    requires 0 <= x < 4 && 0 <= b < 256 && 0 <= y < 4
    ensures Second(x * 16 + b / 16, b % 16 * 4 + y) == b as char
  {
    assert (x * 16 + b / 16) % 16 == b / 16;
    assert (b % 16 * 4 + y) / 4 == b % 16;
  }

  lemma ThirdByte(x: int, c: int)
    requires 0 <= x < 16 && 0 <= c < 256
    ensures Third(x * 4 + c / 64, c % 64) == c as char
  {
    assert (x * 4 + c / 64) % 4 == c / 64;
  }

  lemma ThreeBytes(a: int, b: int, c: int)
    requires 0 <= a < 256 && 0 <= b < 256 && 0 <= c < 256
    ensures First(a / 4, a % 4 * 16 + b / 16) == a as char
    ensures Second(a % 4 * 16 + b / 16, b % 16 * 4 + c / 64) == b as char
    ensures Third(b % 16 * 4 + c / 64, c % 64) == c as char
  {
    FirstByte(a, b / 16);
    SecondByte(a % 4, b, c / 64);
    ThirdByte(b % 16, c);
  }

  lemma OneByteReturns(a: int)
    requires 0 <= a < 256
    ensures FromGroups([a / 4, a % 4 * 16]) == Some([a as char])
  {
    FirstByte(a, 0);
    TwoGroups(a / 4, a % 4 * 16, a as char);
  }

  lemma TwoBytesReturn(a: int, b: int)
    requires 0 <= a < 256 && 0 <= b < 256
    ensures FromGroups([a / 4, a % 4 * 16 + b / 16, b % 16 * 4]) == Some([a as char, b as char])
  {
    FirstByte(a, b / 16);
    SecondByte(a % 4, b, 0);
    ThreeGroups(a / 4, a % 4 * 16 + b / 16, b % 16 * 4, a as char, b as char);
  }

  lemma ThreeBytesReturn(a: int, b: int, c: int, rest: seq<Group>)
    requires 0 <= a < 256 && 0 <= b < 256 && 0 <= c < 256
    ensures var bytes := FromGroups(rest);
            FromGroups([a / 4, a % 4 * 16 + b / 16, b % 16 * 4 + c / 64, c % 64] + rest) ==
            if bytes.None? then None else Some([a as char, b as char, c as char] + bytes.value)
  {
    ThreeBytes(a, b, c);
    FourGroups(a / 4, a % 4 * 16 + b / 16, b % 16 * 4 + c / 64, c % 64, a as char, b as char, c as char, rest);
  }

  lemma TwoGroups(p: Group, q: Group, x: char)
    requires First(p, q) == x
    ensures FromGroups([p, q]) == Some([x])
  {
  }

  lemma ThreeGroups(p: Group, q: Group, r: Group, x: char, y: char)
    requires First(p, q) == x && Second(q, r) == y
    ensures FromGroups([p, q, r]) == Some([x, y])
  {
  }

  lemma FourGroups(p: Group, q: Group, r: Group, t: Group, x: char, y: char, z: char, rest: seq<Group>)
    requires First(p, q) == x && Second(q, r) == y && Third(r, t) == z
    ensures var bytes := FromGroups(rest);
            FromGroups([p, q, r, t] + rest) == if bytes.None? then None else Some([x, y, z] + bytes.value)
  {
    var g := [p, q, r, t] + rest;
    assert |g| >= 4 && g[0] == p && g[1] == q && g[2] == r && g[3] == t && g[4..] == rest;
    assert FromGroups(g) == var bytes := FromGroups(rest);
                            if bytes.None? then None
                            else Some([First(p, q), Second(q, r), Third(r, t)] + bytes.value);
  }

  lemma GroupsOfThree(a: char, b: char, c: char, rest: string)
    requires IsBytes([a, b, c] + rest)
    ensures IsBytes(rest)
    ensures var x, y, z := a as int, b as int, c as int;
            ToGroups([a, b, c] + rest) == [x / 4, x % 4 * 16 + y / 16, y % 16 * 4 + z / 64, z % 64] + ToGroups(rest)
  {
    var s := [a, b, c] + rest;
    assert forall i | 0 <= i < |rest| :: rest[i] == s[i + 3];
    assert s[3..] == rest;
  }

  lemma OneRoundTrip(a: char)
    requires IsBytes([a])
    ensures FromGroups(ToGroups([a])) == Some([a])
  {
    assert a in [a];
    OneByteReturns(a as int);
  }

  lemma TwoRoundTrip(a: char, b: char)
    requires IsBytes([a, b])
    ensures FromGroups(ToGroups([a, b])) == Some([a, b])
  {
    assert a in [a, b] && b in [a, b];
    TwoBytesReturn(a as int, b as int);
  }

  lemma ThreeRoundTrip(a: char, b: char, c: char, rest: string)
    requires IsBytes([a, b, c] + rest) && IsBytes(rest) && FromGroups(ToGroups(rest)) == Some(rest)
    ensures FromGroups(ToGroups([a, b, c] + rest)) == Some([a, b, c] + rest)
  {
    assert a in [a, b, c] + rest && b in [a, b, c] + rest && c in [a, b, c] + rest;
    GroupsOfThree(a, b, c, rest);
    ThreeBytesReturn(a as int, b as int, c as int, ToGroups(rest));
  }

  lemma {:induction false} GroupsRoundTrip(s: string)
    requires IsBytes(s)
    ensures FromGroups(ToGroups(s)) == Some(s)
  {
    if |s| >= 3 {
      GroupsRoundTrip(s[3..]);
      ThreeRoundTrip(s[0], s[1], s[2], s[3..]);
      assert s == [s[0], s[1], s[2]] + s[3..];
    } else if |s| == 2 {
      TwoRoundTrip(s[0], s[1]);
      assert s == [s[0], s[1]];
    } else if |s| == 1 {
      OneRoundTrip(s[0]);
      assert s == [s[0]];
    }
  }

  lemma {:induction false} GroupCount(s: string)
    requires IsBytes(s)
    ensures |ToGroups(s)| == (4 * |s| + 2) / 3
  {
    if |s| >= 3 {
      GroupCount(s[3..]);
    }
  }

  /** Decoding undoes encoding. */
  lemma Base64RoundTrip(s: string)
    requires IsBytes(s)
    ensures Decode(Encode(s)) == Some(s)
  {
    GroupsRoundTrip(s);
    LettersRoundTrip(ToGroups(s));
  }

  /** The encoded text is a third longer, and it holds neither of the bytes that
      separate texts. */
  lemma EncodedShape(s: string)
    requires IsBytes(s)
    ensures |Encode(s)| == (4 * |s| + 2) / 3
    ensures '|' !in Encode(s) && '.' !in Encode(s)
  {
    GroupCount(s);
    forall i | 0 <= i < |Encode(s)| ensures Encode(s)[i] != '|' && Encode(s)[i] != '.' {
      DigitsArePlain(ToGroups(s)[i]);
    }
  }

  /** The letter of a six-bit value (section 5 of RFC 4648). */
  function Letter(n: Group): char {
    if n < 26 then 'A' + n as char
    else if n < 52 then 'a' + (n - 26) as char
    else if n < 62 then '0' + (n - 52) as char
    else if n == 62 then '-' else '_'
  }

  /** The four letters of a 24-bit number, the highest bits first. */
  function LettersOfNumber(v: nat): string
    requires v < 0x100_0000
  {
    [Letter(v / 64 / 64 / 64), Letter(v / 64 / 64 % 64), Letter(v / 64 % 64), Letter(v % 64)]
  }

  lemma NumberIsSplit(a: nat, b: nat, c: nat)
    requires a < 256 && b < 256 && c < 256
    ensures var v := (a * 256 + b) * 256 + c;
            && v < 0x100_0000 && v / 64 / 64 / 64 == a / 4 && v / 64 / 64 % 64 == a % 4 * 16 + b / 16
            && v / 64 % 64 == b % 16 * 4 + c / 64 && v % 64 == c % 64
  {
    var v := (a * 256 + b) * 256 + c;
    assert v / 64 == (a * 256 + b) * 4 + c / 64;
    assert v / 64 / 64 == a * 16 + b / 16;
  }

  lemma FourLetters(v: nat, p: Group, q: Group, r: Group, t: Group)
    requires v < 0x100_0000 && v / 64 / 64 / 64 == p && v / 64 / 64 % 64 == q && v / 64 % 64 == r && v % 64 == t
    ensures LettersOfNumber(v) == [Digit(p), Digit(q), Digit(r), Digit(t)]
  {
  }

  lemma LettersAreJoined(s: string, rest: string, p: Group, q: Group, r: Group, t: Group)
    requires IsBytes(s) && IsBytes(rest) && ToGroups(s) == [p, q, r, t] + ToGroups(rest)
    ensures Encode(s) == [Digit(p), Digit(q), Digit(r), Digit(t)] + Encode(rest)
  {
  }

  /** Three bytes in front are encoded as the 24-bit number they make. */
  lemma ThreeBytesAreNumber(a: char, b: char, c: char, rest: string, v: nat)
    requires IsBytes([a, b, c] + rest) && IsBytes(rest)
    requires v == (a as int * 256 + b as int) * 256 + c as int < 0x100_0000
    ensures Encode([a, b, c] + rest) == LettersOfNumber(v) + Encode(rest)
  {
    assert a in [a, b, c] + rest && b in [a, b, c] + rest && c in [a, b, c] + rest;
    var x, y, z := a as int, b as int, c as int;
    var p: Group, q: Group, r: Group, t: Group := x / 4, x % 4 * 16 + y / 16, y % 16 * 4 + z / 64, z % 64;
    NumberIsSplit(x, y, z);
    FourLetters(v, p, q, r, t);
    GroupsOfThree(a, b, c, rest);
    LettersAreJoined([a, b, c] + rest, rest, p, q, r, t);
  }

  /** One or two bytes at the end are encoded as with zero bytes behind them, without
      the letters that hold no bit of them. */
  lemma LastBytesAreNumber(s: string)
    requires IsBytes(s) && 1 <= |s| <= 2
    ensures var v := (s[0] as int * 256 + if |s| == 2 then s[1] as int else 0) * 256;
            v < 0x100_0000 && Encode(s) == LettersOfNumber(v)[..|s| + 1]
  {
    NumberIsSplit(s[0] as int, if |s| == 2 then s[1] as int else 0, 0);
  }

  // ----- Decimal integers

  const MIN_INT64 := -0x8000_0000_0000_0000
  const MAX_INT64 := 0x7fff_ffff_ffff_ffff

  predicate IsInt64(n: int) {
    MIN_INT64 <= n <= MAX_INT64
  }

  function Numeral(d: int): (c: char)
    requires 0 <= d < 10
    ensures '0' <= c <= '9' && c as int - 48 == d
  {
    (d + 48) as char
  }

  function FormatNat(n: nat): string {
    if n < 10 then [Numeral(n)] else FormatNat(n / 10) + [Numeral(n % 10)]
  }

  function FormatInt(n: int): string {
    if n < 0 then "-" + FormatNat(-n) else FormatNat(n)
  }

  function Behind(higher: Option<nat>, last: char): Option<nat> {
    if higher.None? || !('0' <= last <= '9') then None else Some(higher.value * 10 + (last as int - 48))
  }

  function ParseNat(s: string): Option<nat> {
    if s == "" then Some(0) else Behind(ParseNat(s[..|s| - 1]), s[|s| - 1])
  }

  /** A sign or none, at least one digit, and a value that fits. */
  function ParseInt(s: string): (r: Option<int>)
    ensures r.Some? ==> IsInt64(r.value)
  {
    var signed := s != "" && (s[0] == '-' || s[0] == '+');
    var digits := if signed then s[1..] else s;
    var n := ParseNat(digits);
    if digits == "" || n.None? then None
    else
      var value: int := if signed && s[0] == '-' then 0 - n.value else n.value;
      if IsInt64(value) then Some(value) else None
  }

  lemma ParseLast(init: string, last: char)
    ensures ParseNat(init + [last]) == Behind(ParseNat(init), last)
  {
    assert (init + [last])[..|init|] == init;
  }

  predicate IsNumeral(s: string) {
    s != "" && forall i | 0 <= i < |s| :: '0' <= s[i] <= '9'
  }

  lemma {:induction false} FormatIsNumeral(n: nat)
    ensures IsNumeral(FormatNat(n))
  {
    if n >= 10 {
      FormatIsNumeral(n / 10);
    }
  }

  /** Decimal notation: a digit behind a number makes ten times the number and the
      digit, and a sign stands in front of negative numbers only. */
  lemma DecimalNotation(n: nat, d: nat)
    requires d < 10
    ensures FormatInt(10 * n + d) == (if n == 0 then "" else FormatInt(n)) + ["0123456789"[d]]
    ensures n > 0 ==> FormatInt(0 - n) == "-" + FormatInt(n)
  {
    assert "0123456789"[d] == Numeral(d);
    assert (10 * n + d) / 10 == n && (10 * n + d) % 10 == d;
  }

  lemma {:induction false} NatRoundTrip(n: nat)
    ensures ParseNat(FormatNat(n)) == Some(n)
  {
    if n >= 10 {
      NatRoundTrip(n / 10);
      ParseLast(FormatNat(n / 10), Numeral(n % 10));
    } else {
      ParseLast("", Numeral(n));
      assert "" + [Numeral(n)] == [Numeral(n)];
    }
  }

  /** Parsing undoes formatting. */
  lemma IntRoundTrip(n: int)
    requires -9_223_372_036_854_775_808 <= n <= 9_223_372_036_854_775_807
    ensures ParseInt(FormatInt(n)) == Some(n)
  {
    var m := if n < 0 then -n else n;
    var digits := FormatNat(m);
    NatRoundTrip(m);
    FormatIsNumeral(m);
    assert digits[0] != '-' && digits[0] != '+';
    assert ("-" + digits)[1..] == digits;
  }

  lemma {:induction false} DecimalLength(n: nat, digits: nat)
    requires n < Power(digits) && digits > 0
    ensures |FormatNat(n)| <= digits
  {
    if n >= 10 {
      DecimalLength(n / 10, digits - 1);
    }
  }

  /** The powers of ten. */
  function Power(digits: nat): nat {
    if digits == 0 then 1 else 10 * Power(digits - 1)
  }

  lemma Int64Length(n: int)
    requires IsInt64(n)
    ensures |FormatInt(n)| <= if n < 0 then 20 else 19
  {
    assert Power(10) == 10_000_000_000;
    assert Power(19) == 10_000_000_000_000_000_000;
    DecimalLength(if n < 0 then -n else n, 19);
  }
}
