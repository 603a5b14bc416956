/** Signed browser sessions (internal/auth/auth.go). Randomness, the clock, the
    signature and the field validators are parameters; for the validators the
    lemmas assume no more than their laws. */
module Sessions {
  import opened Basics
  import opened Encoding
  import opened RegistryPaths
  import opened Interpolation

  const MAX_SESSION := 4096
  const MAX_NAME := 256
  const MAX_PICTURE := 1024

  datatype User = User(accountId: int, provider: string, username: string, credentialVersion: int, email: string,
                       name: string, pictureUrl: string) {
    ghost predicate Valid() {
      && IsInt64(accountId) && IsInt64(credentialVersion)
      && IsBytes(email) && IsBytes(name) && IsBytes(username) && IsBytes(pictureUrl)
    }
  }

  /** The validators of email addresses and user names, trimming, and the name that
      an address suggests. */
  datatype Rules = Rules(email: string -> Option<string>, username: string -> Option<string>, trim: string -> string,
                         fallback: string -> string) {
    /** What a validator returns is nonempty and passes unchanged; a trimmed or
        suggested name needs no trimming. */
    ghost predicate Lawful() {
      && (forall s :: email(s).Some? ==>
                        var e := email(s).value;
                        && e != "" && IsBytes(e) && email(e) == Some(e)
                        && fallback(e) != "" && IsBytes(fallback(e)) && trim(fallback(e)) == fallback(e))
      && (forall s :: username(s).Some? ==>
                        var u := username(s).value; 0 < |u| <= 64 && IsBytes(u) && username(u) == Some(u))
      && (forall s :: trim(trim(s)) == trim(s) && (IsBytes(s) ==> IsBytes(trim(s))))
      && trim("") == ""
    }
  }

  /** A name that is too long gives way to the address, a picture to nothing. */
  function Clip(user: User): User {
    user.(name := if |user.name| > MAX_NAME then user.email else user.name,
          pictureUrl := if |user.pictureUrl| > MAX_PICTURE then "" else user.pictureUrl)
  }

  function NormalizeAccount(user: User, rules: Rules): Option<User> {
    if user.credentialVersion < 1 || (user.provider != "password" && user.provider != "google") then None
    else if user.email != "" then
      var email := rules.email(user.email);
      if email.None? then None
      else Some(Clip(user.(email := email.value, username := "",
                           name := if user.name == "" then email.value else user.name)))
    else if user.provider != "password" then None
    else
      var name := rules.username(user.username);
      if name.None? then None else Some(Clip(user.(username := name.value, name := name.value)))
  }

  function Normalize(user: User, rules: Rules): Option<User> {
    if user.accountId > 0 then NormalizeAccount(user, rules)
    else if user.username != "" then
      var username := rules.username(user.username);
      if username.None? || user.email != "" || user.credentialVersion < 1 then None
      else Some(User(0, "", username.value, user.credentialVersion, "", username.value, ""))
    else
      var email := rules.email(user.email);
      if email.None? then None
      else
        var name, picture := rules.trim(user.name), rules.trim(user.pictureUrl);
        Some(user.(email := email.value,
                   name := if name == "" || |name| > MAX_NAME then rules.fallback(email.value) else name,
                   pictureUrl := if |picture| > MAX_PICTURE then "" else picture))
  }

  // ----- Payloads

  /** The fields of a normalized user's session, in the format for its kind. */
  function Fields(user: User, expires: int, nonce: string): (parts: seq<string>)
    requires user.Valid() && IsBytes(nonce)
    ensures parts != []
  {
    if user.accountId > 0 then
      ["user-v1", FormatInt(user.accountId), user.provider, FormatInt(user.credentialVersion), Encode(user.email),
       Encode(user.name), Encode(user.pictureUrl), FormatInt(expires), Encode(nonce)]
    else if user.username != "" then
      ["local-v1", Encode(user.username), FormatInt(user.credentialVersion), FormatInt(expires), Encode(nonce)]
    else
      ["v2", Encode(user.email), Encode(user.name), Encode(user.pictureUrl), FormatInt(expires), Encode(nonce)]
  }

  function ParseAccount(parts: seq<string>): Option<(User, int)>
    requires |parts| == 9
  {
    var id, version := ParseInt(parts[1]), ParseInt(parts[3]);
    var email, name, picture := Decode(parts[4]), Decode(parts[5]), Decode(parts[6]);
    var expires := ParseInt(parts[7]);
    if id.None? || id.value < 1 || version.None? || email.None? || name.None? || picture.None?
       || expires.None? then None
    else
      var user := User(id.value, parts[2], name.value, version.value, email.value, name.value, picture.value);
      Some((user, expires.value))
  }

  function ParseLocal(parts: seq<string>): Option<(User, int)>
    requires |parts| == 5
  {
    var username, version, expires := Decode(parts[1]), ParseInt(parts[2]), ParseInt(parts[3]);
    if username.None? || version.None? || expires.None? then None
    else Some((User(0, "", username.value, version.value, "", "", ""), expires.value))
  }

  function ParseGoogle(parts: seq<string>): Option<(User, int)>
    requires |parts| == 6
  {
    var email, name, picture := Decode(parts[1]), Decode(parts[2]), Decode(parts[3]);
    var expires := ParseInt(parts[4]);
    if email.None? || name.None? || picture.None? || expires.None? then None
    else Some((User(0, "", "", 0, email.value, name.value, picture.value), expires.value))
  }

  /** The oldest format, which is still read but no longer issued. */
  function ParseLegacy(parts: seq<string>, rules: Rules): Option<(User, int)>
    requires |parts| == 4
  {
    var email, expires := rules.email(parts[1]), ParseInt(parts[2]);
    if email.None? || expires.None? then None else Some((User(0, "", "", 0, email.value, "", ""), expires.value))
  }

  function ParseFields(parts: seq<string>, rules: Rules): Option<(User, int)> {
    if parts == [] || parts[|parts| - 1] == "" then None
    else if parts[0] == "user-v1" then (if |parts| == 9 then ParseAccount(parts) else None)
    else if parts[0] == "local-v1" then (if |parts| == 5 then ParseLocal(parts) else None)
    else if parts[0] == "v1" then (if |parts| == 4 then ParseLegacy(parts, rules) else None)
    else if parts[0] == "v2" then (if |parts| == 6 then ParseGoogle(parts) else None)
    else None
  }

  function ParseSessionUser(parts: seq<string>, rules: Rules): Option<(User, int)> {
    var fields := ParseFields(parts, rules);
    if fields.None? || Normalize(fields.value.0, rules).None? then None
    else Some((Normalize(fields.value.0, rules).value, fields.value.1))
  }

  // ----- Signed values

  function EncodeSignedValue(payload: string, sign: string -> string): string
    requires IsBytes(payload) && IsBytes(sign(payload))
  {
    Encode(payload) + "." + Encode(sign(payload))
  }

  function DecodeSignedValue(value: string): Option<(string, string)> {
    var dot := Find(value, '.');
    if dot == 0 || dot >= |value| - 1 then None
    else
      var payload, signature := Decode(value[..dot]), Decode(value[dot + 1..]);
      if payload.None? || signature.None? then None else Some((payload.value, signature.value))
  }

  function NewSession(user: User, rules: Rules, sign: string -> string, expires: int, nonce: string): Option<string>
    requires user.Valid() && rules.Lawful() && IsBytes(nonce) && forall p :: IsBytes(sign(p))
  {
    var normalized := Normalize(user, rules);
    if normalized.None? then None
    else
      NormalizedIsValid(user, rules);
      FieldsAreBytes(normalized.value, expires, nonce);
      Some(EncodeSignedValue(Join(Fields(normalized.value, expires, nonce), '|'), sign))
  }

  /** Reads a session up to the questions about the account it names. */
  function ReadSession(value: string, rules: Rules, sign: string -> string, now: int): Option<User> {
    if value == "" || |value| > MAX_SESSION then None
    else
      var decoded := DecodeSignedValue(value);
      if decoded.None? || decoded.value.1 != sign(decoded.value.0) then None
      else
        var parsed := ParseSessionUser(Split(decoded.value.0, '|'), rules);
        if parsed.None? || now >= parsed.value.1 then None else Some(parsed.value.0)
  }

  lemma NormalizedIsValid(user: User, rules: Rules)
    requires user.Valid() && rules.Lawful() && Normalize(user, rules).Some?
    ensures Normalize(user, rules).value.Valid()
  {
  }

  lemma {:induction false} JoinIsBytes(parts: seq<string>, separator: char)
    requires separator as int < 256 && forall i | 0 <= i < |parts| :: IsBytes(parts[i])
    ensures IsBytes(Join(parts, separator))
  {
    if |parts| > 1 {
      JoinIsBytes(parts[1..], separator);
    }
  }

  /** A text whose bytes are all of the seven-bit characters that fields use. */
  lemma EncodedIsBytes(s: string)
    requires IsBytes(s)
    ensures IsBytes(Encode(s))
  {
  }

  lemma FormattedIsBytes(n: int)
    ensures IsBytes(FormatInt(n))
  {
    FormatIsNumeral(if n < 0 then -n else n);
  }

  lemma FieldsAreBytes(user: User, expires: int, nonce: string)
    requires user.Valid() && IsBytes(nonce) && (user.accountId > 0 ==> IsBytes(user.provider))
    ensures IsBytes(Join(Fields(user, expires, nonce), '|'))
  {
    FormattedIsBytes(user.accountId);
    FormattedIsBytes(user.credentialVersion);
    FormattedIsBytes(expires);
    EncodedIsBytes(user.email);
    EncodedIsBytes(user.name);
    EncodedIsBytes(user.pictureUrl);
    EncodedIsBytes(user.username);
    EncodedIsBytes(nonce);
    PartsAreBytes(Fields(user, expires, nonce));
  }

  lemma PartsAreBytes(parts: seq<string>)
    requires forall i | 0 <= i < |parts| :: IsBytes(parts[i])
    ensures IsBytes(Join(parts, '|'))
  {
    JoinIsBytes(parts, '|');
  }

  // ----- What was issued is read back

  /** What a session keeps: everything for accounts and local users, and the address,
      the name and the picture for others. */
  function Kept(user: User): User {
    if user.accountId > 0 || user.username != "" then user
    else User(0, "", "", 0, user.email, user.name, user.pictureUrl)
  }

  /** What is read from the fields: an account's name stands for its user name too. */
  function Fielded(user: User): User {
    if user.accountId > 0 then user.(username := user.name)
    else if user.username != "" then User(0, "", user.username, user.credentialVersion, "", "", "")
    else Kept(user)
  }

  /** Normalizing what the fields say gives what the session keeps. */
  lemma FieldedIsKept(user: User, rules: Rules)
    requires user.Valid() && rules.Lawful() && Normalize(user, rules).Some?
    ensures var n := Normalize(user, rules).value; Normalize(Fielded(n), rules) == Some(Kept(n))
  {
  }

  lemma AccountParses(parts: seq<string>, user: User, expires: int)
    requires |parts| == 9 && user.accountId > 0
    requires ParseInt(parts[1]) == Some(user.accountId) && parts[2] == user.provider
    requires ParseInt(parts[3]) == Some(user.credentialVersion) && Decode(parts[4]) == Some(user.email)
    requires Decode(parts[5]) == Some(user.name) && Decode(parts[6]) == Some(user.pictureUrl)
    requires ParseInt(parts[7]) == Some(expires)
    ensures ParseAccount(parts) == Some((Fielded(user), expires))
  {
  }

  lemma AccountRoundTrip(user: User, expires: int, nonce: string)
    requires user.Valid() && IsInt64(expires) && IsBytes(nonce) && user.accountId > 0
    ensures ParseAccount(Fields(user, expires, nonce)) == Some((Fielded(user), expires))
  {
    AccountNumbers(user, expires, nonce);
    AccountTexts(user, expires, nonce);
    AccountParses(Fields(user, expires, nonce), user, expires);
  }

  lemma AccountNumbers(user: User, expires: int, nonce: string)
    requires user.Valid() && IsInt64(expires) && IsBytes(nonce) && user.accountId > 0
    ensures var parts := Fields(user, expires, nonce);
            && |parts| == 9 && parts[2] == user.provider && ParseInt(parts[1]) == Some(user.accountId)
            && ParseInt(parts[3]) == Some(user.credentialVersion) && ParseInt(parts[7]) == Some(expires)
  {
    IntRoundTrip(user.accountId);
    IntRoundTrip(user.credentialVersion);
    IntRoundTrip(expires);
  }

  lemma AccountTexts(user: User, expires: int, nonce: string)
    requires user.Valid() && IsBytes(nonce) && user.accountId > 0
    ensures var parts := Fields(user, expires, nonce);
            && |parts| == 9 && Decode(parts[4]) == Some(user.email) && Decode(parts[5]) == Some(user.name)
            && Decode(parts[6]) == Some(user.pictureUrl)
  {
    Base64RoundTrip(user.email);
    Base64RoundTrip(user.name);
    Base64RoundTrip(user.pictureUrl);
  }

  lemma LocalRoundTrip(user: User, expires: int, nonce: string)
    requires user.Valid() && IsInt64(expires) && IsBytes(nonce) && user.accountId <= 0 && user.username != ""
    ensures ParseLocal(Fields(user, expires, nonce)) == Some((Fielded(user), expires))
  {
    IntRoundTrip(user.credentialVersion);
    IntRoundTrip(expires);
    Base64RoundTrip(user.username);
  }

  lemma GoogleRoundTrip(user: User, expires: int, nonce: string)
    requires user.Valid() && IsInt64(expires) && IsBytes(nonce) && user.accountId <= 0 && user.username == ""
    ensures ParseGoogle(Fields(user, expires, nonce)) == Some((Fielded(user), expires))
  {
    IntRoundTrip(expires);
    Base64RoundTrip(user.email);
    Base64RoundTrip(user.name);
    Base64RoundTrip(user.pictureUrl);
  }

  lemma EncodedHasNoBar(s: string)
    requires IsBytes(s)
    ensures '|' !in Encode(s)
  {
    EncodedShape(s);
  }

  lemma FormattedHasNoBar(n: int)
    ensures '|' !in FormatInt(n)
  {
    FormatIsNumeral(if n < 0 then -n else n);
  }

  lemma NoneSeparates(user: User, expires: int, nonce: string)
    requires user.Valid() && IsInt64(expires) && IsBytes(nonce)
    requires user.accountId > 0 ==> user.provider == "password" || user.provider == "google"
    ensures forall part | part in Fields(user, expires, nonce) :: '|' !in part
  {
    FormattedHasNoBar(user.credentialVersion);
    FormattedHasNoBar(expires);
    EncodedHasNoBar(nonce);
    if user.accountId > 0 {
      FormattedHasNoBar(user.accountId);
      assert '|' !in user.provider;
    }
    if user.accountId > 0 || user.username == "" {
      EncodedHasNoBar(user.email);
      EncodedHasNoBar(user.name);
      EncodedHasNoBar(user.pictureUrl);
    } else {
      EncodedHasNoBar(user.username);
    }
  }

  /** The fields of a user, printed and parsed. */
  lemma FieldsRoundTrip(user: User, rules: Rules, expires: int, nonce: string)
    requires user.Valid() && IsInt64(expires) && IsBytes(nonce) && nonce != ""
    ensures ParseFields(Fields(user, expires, nonce), rules) == Some((Fielded(user), expires))
  {
    assert Encode(nonce) != "" by {
      EncodedShape(nonce);
    }
    if user.accountId > 0 {
      AccountRoundTrip(user, expires, nonce);
    } else if user.username != "" {
      LocalRoundTrip(user, expires, nonce);
    } else {
      GoogleRoundTrip(user, expires, nonce);
    }
  }

  lemma SignedRoundTrip(payload: string, sign: string -> string)
    requires IsBytes(payload) && payload != "" && IsBytes(sign(payload)) && sign(payload) != ""
    ensures DecodeSignedValue(EncodeSignedValue(payload, sign)) == Some((payload, sign(payload)))
  {
    var head, tail := Encode(payload), Encode(sign(payload));
    Base64RoundTrip(payload);
    Base64RoundTrip(sign(payload));
    EncodedShape(payload);
    EncodedShape(sign(payload));
    FindEnds(head, '.', tail);
    assert (head + "." + tail)[..|head|] == head && (head + "." + tail)[|head| + 1..] == tail;
  }

  lemma NormalizedProvider(user: User, rules: Rules)
    requires Normalize(user, rules).Some?
    ensures var n := Normalize(user, rules).value; n.accountId > 0 ==>
            n.provider == "password" || n.provider == "google"
  {
  }

  lemma {:induction false} JoinStarts(parts: seq<string>, separator: char)
    requires parts != []
    ensures parts[0] <= Join(parts, separator)
  {
  }

  lemma PayloadRoundTrip(user: User, rules: Rules, expires: int, nonce: string)
    requires user.Valid() && IsInt64(expires) && IsBytes(nonce) && nonce != ""
    requires user.accountId > 0 ==> user.provider == "password" || user.provider == "google"
    ensures var payload := Join(Fields(user, expires, nonce), '|');
            payload != "" && ParseFields(Split(payload, '|'), rules) == Some((Fielded(user), expires))
  {
    var parts := Fields(user, expires, nonce);
    FieldsRoundTrip(user, rules, expires, nonce);
    NoneSeparates(user, expires, nonce);
    SplitJoin(parts, '|');
    JoinStarts(parts, '|');
    assert parts[0] != "";
  }

  lemma PayloadIsRead(payload: string, rules: Rules, sign: string -> string, now: int, fields: (User, int), kept: User)
    requires IsBytes(payload) && payload != "" && IsBytes(sign(payload)) && sign(payload) != ""
    requires ParseFields(Split(payload, '|'), rules) == Some(fields) && Normalize(fields.0, rules) == Some(kept)
    ensures var value := EncodeSignedValue(payload, sign);
            ReadSession(value, rules, sign, now) ==
            if |value| <= MAX_SESSION && now < fields.1 then Some(kept) else None
  {
    SignedRoundTrip(payload, sign);
  }

  lemma LengthOfSession(payload: string, sign: string -> string)
    requires IsBytes(payload) && IsBytes(sign(payload)) && |sign(payload)| == 32
    ensures |EncodeSignedValue(payload, sign)| <= MAX_SESSION <==> |payload| <= 3039
  {
    EncodedShape(payload);
    EncodedShape(sign(payload));
    LengthBound(|payload|);
  }

  lemma LengthBound(n: nat)
    ensures (4 * n + 2) / 3 + 1 + (4 * 32 + 2) / 3 <= MAX_SESSION <==> n <= 3039
  {
  }

  /** A session is read back as what it keeps of the normalized user, as long as it
      has not expired and was not too long to be read at all; and its length is fixed
      by that of its payload. */
  lemma SessionRoundTrip(user: User, rules: Rules, sign: string -> string, expires: int, nonce: string, now: int)
    requires user.Valid() && rules.Lawful() && Normalize(user, rules).Some?
    requires IsInt64(expires) && IsBytes(nonce) && nonce != "" && forall p :: IsBytes(sign(p)) && |sign(p)| == 32
    ensures NewSession(user, rules, sign, expires, nonce).Some?
    ensures var n, value := Normalize(user, rules).value, NewSession(user, rules, sign, expires, nonce).value;
            && n.Valid()
            && (ReadSession(value, rules, sign, now) == if |value| <= MAX_SESSION
                && now < expires then Some(Kept(n)) else None)
            && (|value| <= MAX_SESSION <==> |Join(Fields(n, expires, nonce), '|')| <= 3039)
  {
    SessionIsSigned(user, rules, sign, expires, nonce);
    SignedIsRead(user, rules, sign, expires, nonce, now);
  }

  lemma SignedIsRead(user: User, rules: Rules, sign: string -> string, expires: int, nonce: string, now: int)
    requires user.Valid() && rules.Lawful() && Normalize(user, rules).Some?
    requires IsInt64(expires) && IsBytes(nonce) && nonce != "" && forall p :: IsBytes(sign(p)) && |sign(p)| == 32
    ensures var n := Normalize(user, rules).value;
            && n.Valid() && IsBytes(Join(Fields(n, expires, nonce), '|'))
            && var value := EncodeSignedValue(Join(Fields(n, expires, nonce), '|'), sign);
            && (ReadSession(value, rules, sign, now) == if |value| <= MAX_SESSION
                && now < expires then Some(Kept(n)) else None)
            && (|value| <= MAX_SESSION <==> |Join(Fields(n, expires, nonce), '|')| <= 3039)
  {
    var n := Normalize(user, rules).value;
    var payload := Join(Fields(n, expires, nonce), '|');
    PayloadOfNormalized(user, rules, expires, nonce);
    PayloadIsRead(payload, rules, sign, now, (Fielded(n), expires), Kept(n));
    LengthOfSession(payload, sign);
  }

  lemma PayloadOfNormalized(user: User, rules: Rules, expires: int, nonce: string)
    requires user.Valid() && rules.Lawful() && Normalize(user, rules).Some?
    requires IsInt64(expires) && IsBytes(nonce) && nonce != ""
    ensures var n := Normalize(user, rules).value;
            && n.Valid() && Normalize(Fielded(n), rules) == Some(Kept(n))
            && var payload := Join(Fields(n, expires, nonce), '|');
            && IsBytes(payload) && payload != ""
            && ParseFields(Split(payload, '|'), rules) == Some((Fielded(n), expires))
  {
    var n := Normalize(user, rules).value;
    NormalizedIsValid(user, rules);
    NormalizedProvider(user, rules);
    FieldedIsKept(user, rules);
    FieldsAreBytes(n, expires, nonce);
    PayloadRoundTrip(n, rules, expires, nonce);
  }

  lemma SessionIsSigned(user: User, rules: Rules, sign: string -> string, expires: int, nonce: string)
    requires user.Valid() && rules.Lawful() && Normalize(user, rules).Some?
    requires IsBytes(nonce) && forall p :: IsBytes(sign(p))
    ensures var n := Normalize(user, rules).value;
            && n.Valid() && IsBytes(Join(Fields(n, expires, nonce), '|'))
            && NewSession(user, rules, sign, expires, nonce) ==
               Some(EncodeSignedValue(Join(Fields(n, expires, nonce), '|'), sign))
  {
    NormalizedIsValid(user, rules);
    FieldsAreBytes(Normalize(user, rules).value, expires, nonce);
  }

  // ----- What the user who is read has of the user who was given

  /** The identity checks: a known provider, a version and an address or a name for
      accounts, a name and a version but no address for local users, an address for all
      others. */
  ghost predicate Identified(user: User, rules: Rules) {
    if user.accountId > 0 then
      && user.credentialVersion >= 1 && (user.provider == "password" || user.provider == "google")
      && if user.email != "" then rules.email(user.email).Some?
         else user.provider == "password" && rules.username(user.username).Some?
    else if user.username != "" then
      rules.username(user.username).Some? && user.email == "" && user.credentialVersion >= 1
    else
      rules.email(user.email).Some?
  }

  /** Id, provider and version are the account's own; the address is the validator's; a
      name and a picture of legal length are kept as they were given. */
  ghost predicate SameAccount(given: User, read: User, rules: Rules) {
    && read.accountId == given.accountId && read.provider == given.provider
    && read.credentialVersion == given.credentialVersion
    && read.pictureUrl == (if |given.pictureUrl| <= 1024 then given.pictureUrl else "")
    && (given.email != "" ==>
          && rules.email(given.email) == Some(read.email) && read.username == ""
          && read.name == if given.name != "" && |given.name| <= 256 then given.name else read.email)
    && (given.email == "" ==>
          read.email == "" && rules.username(given.username) == Some(read.username) && read.name == read.username)
  }

  ghost predicate SameLocalUser(given: User, read: User, rules: Rules) {
    && rules.username(given.username) == Some(read.username) && read.name == read.username
    && read.credentialVersion == given.credentialVersion
    && read.accountId == 0 && read.provider == "" && read.email == "" && read.pictureUrl == ""
  }

  ghost predicate SameAddress(given: User, read: User, rules: Rules) {
    var name, picture := rules.trim(given.name), rules.trim(given.pictureUrl);
    && rules.email(given.email) == Some(read.email)
    && read.name == (if name != "" && |name| <= 256 then name else rules.fallback(read.email))
    && read.pictureUrl == (if |picture| <= 1024 then picture else "")
    && read.accountId == 0 && read.provider == "" && read.username == "" && read.credentialVersion == 0
  }

  ghost predicate SameUser(given: User, read: User, rules: Rules) {
    if given.accountId > 0 then SameAccount(given, read, rules)
    else if given.username != "" then SameLocalUser(given, read, rules)
    else SameAddress(given, read, rules)
  }

  /** A session is issued exactly if the identity checks pass. */
  lemma IssuedIffIdentified(user: User, rules: Rules, sign: string -> string, expires: int, nonce: string)
    requires user.Valid() && rules.Lawful() && IsBytes(nonce) && forall p :: IsBytes(sign(p))
    ensures NewSession(user, rules, sign, expires, nonce).Some? <==> Identified(user, rules)
  {
    NormalizesIffIdentified(user, rules);
  }

  lemma NormalizesIffIdentified(user: User, rules: Rules)
    ensures Normalize(user, rules).Some? <==> Identified(user, rules)
  {
  }

  lemma KeptIsSameUser(user: User, rules: Rules)
    requires user.Valid() && rules.Lawful() && Normalize(user, rules).Some?
    ensures SameUser(user, Kept(Normalize(user, rules).value), rules)
  {
  }

  /** Read in time and short enough, it shows the user it was issued for. */
  lemma SessionShowsUser(user: User, rules: Rules, sign: string -> string, expires: int, nonce: string, now: int)
    requires user.Valid() && rules.Lawful() && Identified(user, rules)
    requires IsInt64(expires) && IsBytes(nonce) && nonce != "" && forall p :: IsBytes(sign(p)) && |sign(p)| == 32
    ensures NewSession(user, rules, sign, expires, nonce).Some?
    ensures var value := NewSession(user, rules, sign, expires, nonce).value;
            var read := ReadSession(value, rules, sign, now);
            && (read.Some? <==> |value| <= 4096 && now < expires)
            && (read.Some? ==> SameUser(user, read.value, rules))
  {
    NormalizesIffIdentified(user, rules);
    SessionRoundTrip(user, rules, sign, expires, nonce, now);
    KeptIsSameUser(user, rules);
  }

  /** Whatever is read carries the signature of its payload. */
  lemma ReadIsSigned(value: string, rules: Rules, sign: string -> string, now: int)
    requires ReadSession(value, rules, sign, now).Some?
    ensures 0 < |value| <= 4096
    ensures exists payload, i :: 0 < i < |value| && value[i] == '.' && Decode(value[..i]) == Some(payload)
                                 && Decode(value[i + 1..]) == Some(sign(payload))
  {
    var (payload, signature) := DecodeSignedValue(value).value;
    assert Decode(value[..Find(value, '.')]) == Some(payload);
  }

  /** The oldest format: an address in the clear, a time and a nonce. */
  lemma LegacyIsRead(email: string, rules: Rules, expires: int, nonce: string)
    requires rules.Lawful() && IsInt64(expires) && nonce != "" && rules.email(email).Some?
    requires '|' !in email && '|' !in nonce
    ensures var address := rules.email(email).value;
            ParseSessionUser(Split(Join(["v1", email, FormatInt(expires), nonce], '|'), '|'), rules) ==
            Some((User(0, "", "", 0, address, rules.fallback(address), ""), expires))
  {
    var parts := ["v1", email, FormatInt(expires), nonce];
    FormattedHasNoBar(expires);
    IntRoundTrip(expires);
    SplitJoin(parts, '|');
  }

  // ----- Sizes

  lemma JoinOne(a: string, rest: seq<string>)
    requires rest != []
    ensures |Join([a] + rest, '|')| == |a| + 1 + |Join(rest, '|')|
  {
    assert ([a] + rest)[1..] == rest;
  }

  lemma JoinThree(a: string, b: string, c: string, rest: seq<string>)
    requires rest != []
    ensures |Join([a, b, c] + rest, '|')| == |a| + |b| + |c| + 3 + |Join(rest, '|')|
  {
    JoinOne(c, rest);
    JoinOne(b, [c] + rest);
    JoinOne(a, [b] + ([c] + rest));
    assert [a, b, c] + rest == [a] + ([b] + ([c] + rest));
  }

  lemma JoinTwo(a: string, b: string)
    ensures |Join([a, b], '|')| == |a| + 1 + |b|
  {
    assert [a, b][1..] == [b];
  }

  function EncodedLength(s: string): nat {
    (4 * |s| + 2) / 3
  }

  lemma AccountLength(user: User, expires: int, nonce: string)
    requires user.Valid() && IsBytes(nonce) && user.accountId > 0
    ensures |Join(Fields(user, expires, nonce), '|')| ==
            15 + |FormatInt(user.accountId)| + |user.provider| + |FormatInt(user.credentialVersion)|
                + EncodedLength(user.email)
            + EncodedLength(user.name) + EncodedLength(user.pictureUrl) + |FormatInt(expires)| + EncodedLength(nonce)
  {
    var parts := Fields(user, expires, nonce);
    EncodedShape(user.email);
    EncodedShape(user.name);
    EncodedShape(user.pictureUrl);
    EncodedShape(nonce);
    JoinNine(parts);
  }

  lemma JoinNine(parts: seq<string>)
    requires |parts| == 9
    ensures |Join(parts, '|')| == |parts[0]| + |parts[1]| + |parts[2]| + |parts[3]| + |parts[4]| + |parts[5]|
            + |parts[6]|
                                  + |parts[7]| + |parts[8]| + 8
  {
    assert parts[6..] == [parts[6]] + [parts[7], parts[8]];
    assert parts[6..][1..] == [parts[7], parts[8]];
    JoinTwo(parts[7], parts[8]);
    JoinThree(parts[3], parts[4], parts[5], parts[6..]);
    assert parts[3..] == [parts[3], parts[4], parts[5]] + parts[6..];
    JoinThree(parts[0], parts[1], parts[2], parts[3..]);
    assert parts == [parts[0], parts[1], parts[2]] + parts[3..];
  }

  lemma LocalLength(user: User, expires: int, nonce: string)
    requires user.Valid() && IsBytes(nonce) && user.accountId <= 0 && user.username != ""
    ensures |Join(Fields(user, expires, nonce), '|')| ==
            12 + EncodedLength(user.username) + |FormatInt(user.credentialVersion)| + |FormatInt(expires)|
                + EncodedLength(nonce)
  {
    var parts := Fields(user, expires, nonce);
    EncodedShape(user.username);
    EncodedShape(nonce);
    JoinTwo(parts[3], parts[4]);
    JoinThree(parts[0], parts[1], parts[2], [parts[3], parts[4]]);
    assert parts == [parts[0], parts[1], parts[2]] + [parts[3], parts[4]];
  }

  lemma NormalizedSizes(user: User, rules: Rules)
    requires user.Valid() && rules.Lawful() && Normalize(user, rules).Some?
    ensures var n := Normalize(user, rules).value;
            && (n.accountId > 0 ==> |n.name| <= MAX_NAME || n.name == n.email)
            && (n.accountId > 0 ==> |n.pictureUrl| <= MAX_PICTURE)
            && (n.accountId <= 0 && n.username != "" ==> |n.username| <= 64)
  {
  }

  /** The sessions of local users and of accounts whose address has at most 320 bytes
      are short enough to be read; no account's is whose address has 700 bytes and is
      its name too, with the longest picture address. The address may have 320
      characters of up to four bytes each. */
  lemma SessionsFit(user: User, rules: Rules, sign: string -> string, expires: int, nonce: string, now: int)
    requires user.Valid() && rules.Lawful() && Normalize(user, rules).Some?
    requires IsInt64(expires) && IsBytes(nonce) && |nonce| == 16 && forall p :: IsBytes(sign(p)) && |sign(p)| == 32
    ensures NewSession(user, rules, sign, expires, nonce).Some?
    ensures var n, read := Normalize(user, rules).value,
                           ReadSession(NewSession(user, rules, sign, expires, nonce).value, rules, sign, now);
            && ((n.accountId > 0 && |n.email| <= 320) || (n.accountId <= 0 && n.username != "") ==>
                  read == if now < expires then Some(n) else None)
            && (&& n.accountId > 0 && |n.email| >= 700 && n.name == n.email
                && |n.pictureUrl| == MAX_PICTURE ==>
                  read.None?)
  {
    var n := Normalize(user, rules).value;
    SessionRoundTrip(user, rules, sign, expires, nonce, now);
    NormalizedSizes(user, rules);
    NormalizedProvider(user, rules);
    Int64Length(n.accountId);
    Int64Length(n.credentialVersion);
    Int64Length(expires);
    if n.accountId > 0 {
      AccountLength(n, expires, nonce);
    } else if n.username != "" {
      LocalLength(n, expires, nonce);
    }
  }
}
