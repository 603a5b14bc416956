/** Names and link paths inside the registry's repositories tree, relative to its
    root (internal/compose/registry.go). Strings are sequences of bytes. */
module RegistryPaths {
  import opened Basics

  predicate IsLowerAlphanumeric(c: char) {
    'a' <= c <= 'z' || '0' <= c <= '9'
  }

  predicate IsWord(c: char) {
    IsLowerAlphanumeric(c) || 'A' <= c <= 'Z' || c == '_'
  }

  predicate IsHexDigit(c: char) {
    '0' <= c <= '9' || 'a' <= c <= 'f' || 'A' <= c <= 'F'
  }

  predicate ValidPathComponent(value: string) {
    && 0 < |value| <= 128
    && forall i | 0 <= i < |value| ::
         || IsLowerAlphanumeric(value[i])
         || (0 < i < |value| - 1 && value[i] in {'.', '_', '-'})
  }

  predicate ValidTag(value: string) {
    && 0 < |value| <= 128
    && forall i | 0 <= i < |value| :: IsWord(value[i]) || (0 < i && value[i] in {'.', '-'})
  }

  predicate ValidEncoding(value: string) {
    |value| == 64 && forall i | 0 <= i < |value| :: IsHexDigit(value[i])
  }

  predicate ValidDigest(value: string) {
    |value| >= 7 && value[..7] == "sha256:" && ValidEncoding(value[7..])
  }

  /** The pieces between separators, slashes as a rule. */
  function Split(s: string, separator: char := '/'): (parts: seq<string>)
    ensures |parts| > 0
  {
    if s == "" then [""] else Prepend(s[0], Split(s[1..], separator), separator)
  }

  function Prepend(c: char, parts: seq<string>, separator: char := '/'): (r: seq<string>)
    requires parts != []
    ensures r != []
  {
    if c == separator then [""] + parts else [[c] + parts[0]] + parts[1..]
  }

  function Join(parts: seq<string>, separator: char := '/'): string {
    if parts == [] then "" else if |parts| == 1 then parts[0]
    else parts[0] + [separator] + Join(parts[1..], separator)
  }

  predicate ValidRepository(repository: string) {
    0 < |repository| <= 255 && forall part | part in Split(repository) :: ValidPathComponent(part)
  }

  function TagDirectory(repository: string, tag: string): string {
    Join([repository, "_manifests", "tags", tag])
  }

  function TagLinkPath(repository: string, tag: string): string {
    Join([repository, "_manifests", "tags", tag, "current", "link"])
  }

  /** The encoded part of a digest, behind the colon. */
  function Encoded(digest: string): string {
    if |digest| < 7 then "" else digest[7..]
  }

  function RevisionDirectory(repository: string, digest: string): string {
    Join([repository, "_manifests", "revisions", "sha256", Encoded(digest)])
  }

  function RevisionPath(repository: string, digest: string): string {
    Join([repository, "_manifests", "revisions", "sha256", Encoded(digest), "link"])
  }

  /** What the last five components of a path say about the rest. */
  function SplitRepository(parts: seq<string>): Option<string>
    requires |parts| >= 5
  {
    var repositoryParts := parts[..|parts| - 5];
    if forall part | part in repositoryParts :: ValidPathComponent(part) then
      if Join(repositoryParts) == "" || |Join(repositoryParts)| > 255 then None else Some(Join(repositoryParts))
    else None
  }

  function SplitLinkPath(path: string): Option<(string, string)> {
    var parts := Split(path);
    if |parts| < 6 then None else
      var tail := parts[|parts| - 5..];
      if tail[0] != "_manifests" || tail[1] != "tags" || tail[3] != "current" || tail[4] != "link" then None
      else if !ValidTag(tail[2]) then None
      else
        var repository := SplitRepository(parts);
        if repository.None? then None else Some((repository.value, tail[2]))
  }

  function SplitRevisionPath(path: string): Option<(string, string)> {
    var parts := Split(path);
    if |parts| < 6 then None else
      var tail := parts[|parts| - 5..];
      if tail[0] != "_manifests" || tail[1] != "revisions" || tail[2] != "sha256" || tail[4] != "link" then None
      else if !ValidDigest("sha256:" + tail[3]) then None
      else
        var repository := SplitRepository(parts);
        if repository.None? then None else Some((repository.value, "sha256:" + tail[3]))
  }

  // ----- Splitting and joining

  lemma {:induction false} JoinSplit(s: string)
    ensures Join(Split(s)) == s
  {
    if s != "" {
      JoinSplit(s[1..]);
      var rest := Split(s[1..]);
      if s[0] == '/' {
        assert ([""] + rest)[1..] == rest;
      } else {
        assert ([[s[0]] + rest[0]] + rest[1..])[1..] == rest[1..];
      }
    }
  }

  lemma SplitCons(c: char, s: string, separator: char := '/')
    ensures Split([c] + s, separator) == Prepend(c, Split(s, separator), separator)
  {
    assert ([c] + s)[1..] == s;
  }

  lemma PrependConcat(c: char, left: seq<string>, right: seq<string>, separator: char := '/')
    requires left != []
    ensures Prepend(c, left + right, separator) == Prepend(c, left, separator) + right
  {
    if c == separator {
      assert [""] + (left + right) == [""] + left + right;
    } else {
      assert (left + right)[1..] == left[1..] + right;
    }
  }

  /** Splitting distributes over a separator. */
  lemma {:induction false} SplitAtSlash(a: string, b: string, separator: char := '/')
    ensures Split(a + [separator] + b, separator) == Split(a, separator) + Split(b, separator)
  {
    if a == "" {
      SplitCons(separator, b, separator);
      assert a + [separator] + b == [separator] + b;
    } else {
      SplitAtSlash(a[1..], b, separator);
      SplitCons(a[0], a[1..], separator);
      SplitCons(a[0], a[1..] + [separator] + b, separator);
      PrependConcat(a[0], Split(a[1..], separator), Split(b, separator), separator);
      assert a == [a[0]] + a[1..];
      assert a + [separator] + b == [a[0]] + (a[1..] + [separator] + b);
    }
  }

  lemma {:induction false} SplitPlain(s: string, separator: char := '/')
    requires separator !in s
    ensures Split(s, separator) == [s]
  {
    if s != "" {
      assert s[0] in s && forall c | c in s[1..] :: c in s;
      SplitPlain(s[1..], separator);
      assert [s[0]] + s[1..] == s;
    }
  }

  lemma {:induction false} SplitJoin(parts: seq<string>, separator: char := '/')
    requires parts != [] && forall part | part in parts :: separator !in part
    ensures Split(Join(parts, separator), separator) == parts
  {
    assert parts[0] in parts;
    SplitPlain(parts[0], separator);
    if |parts| > 1 {
      SplitJoin(parts[1..], separator);
      SplitAtSlash(parts[0], Join(parts[1..], separator), separator);
      assert parts == [parts[0]] + parts[1..];
    }
  }

  lemma SplitUnder(head: string, parts: seq<string>)
    requires forall part | part in parts :: '/' !in part
    ensures Split(Join([head] + parts)) == Split(head) + parts
  {
    if parts != [] {
      assert ([head] + parts)[1..] == parts;
      SplitAtSlash(head, Join(parts));
      SplitJoin(parts);
    } else {
      assert [head] + parts == [head];
    }
  }

  lemma {:induction false} JoinSuffix(parts: seq<string>, last: string, suffix: string)
    ensures Join(parts + [last]) + suffix == Join(parts + [last + suffix])
  {
    if parts != [] {
      JoinSuffix(parts[1..], last, suffix);
      assert (parts + [last])[1..] == parts[1..] + [last];
      assert (parts + [last + suffix])[1..] == parts[1..] + [last + suffix];
    }
  }

  lemma PlainComponent(part: string)
    requires ValidPathComponent(part) || ValidTag(part) || ValidEncoding(part)
    ensures '/' !in part
    ensures ValidPathComponent(part) ==> part != "_manifests"
  {
    assert part != "_manifests" || part[0] == '_';
  }

  lemma {:induction false} SplitHasNoSlash(s: string)
    ensures forall part | part in Split(s) :: '/' !in part
  {
    if s != "" {
      SplitHasNoSlash(s[1..]);
    }
  }

  // ----- Printing and parsing links

  lemma TagLinkComponents(repository: string, tag: string)
    requires '/' !in tag
    ensures Split(TagLinkPath(repository, tag)) ==
            Split(repository) + ["_manifests", "tags", tag, "current", "link"]
  {
    SplitUnder(repository, ["_manifests", "tags", tag, "current", "link"]);
    assert [repository] + ["_manifests", "tags", tag, "current", "link"] ==
           [repository, "_manifests", "tags", tag, "current", "link"];
  }

  lemma StagedLinkComponents(repository: string, tag: string)
    requires '/' !in tag
    ensures Split(TagLinkPath(repository, tag) + ".new") ==
            Split(repository) + ["_manifests", "tags", tag, "current", "link.new"]
  {
    var head := [repository, "_manifests", "tags", tag, "current"];
    JoinSuffix(head, "link", ".new");
    assert head + ["link"] == [repository, "_manifests", "tags", tag, "current", "link"];
    assert "link" + ".new" == "link.new";
    SplitUnder(repository, ["_manifests", "tags", tag, "current", "link.new"]);
    assert head + ["link.new"] == [repository] + ["_manifests", "tags", tag, "current", "link.new"];
  }

  lemma RevisionComponents(repository: string, digest: string)
    requires '/' !in Encoded(digest)
    ensures Split(RevisionPath(repository, digest)) ==
            Split(repository) + ["_manifests", "revisions", "sha256", Encoded(digest), "link"]
  {
    SplitUnder(repository, ["_manifests", "revisions", "sha256", Encoded(digest), "link"]);
  }

  lemma RepositoryReadsBack(repository: string, tail: seq<string>)
    requires ValidRepository(repository) && |tail| == 5
    ensures SplitRepository(Split(repository) + tail) == Some(repository)
  {
    assert (Split(repository) + tail)[..|Split(repository) + tail| - 5] == Split(repository);
    JoinSplit(repository);
  }

  lemma {:induction false} JoinConcat(a: seq<string>, b: seq<string>)
    requires a != [] && b != []
    ensures Join(a + b) == Join(a) + "/" + Join(b)
  {
    if |a| == 1 {
      assert (a + b)[1..] == b;
    } else {
      JoinConcat(a[1..], b);
      assert (a + b)[1..] == a[1..] + b;
      assert Join(a) == a[0] + "/" + Join(a[1..]);
    }
  }

  lemma JoinMore(parts: seq<string>, last: string, all: seq<string>)
    requires parts != [] && all == parts + [last]
    ensures Join(all) == Join(parts) + "/" + last
  {
    JoinConcat(parts, [last]);
  }

  lemma ManifestPath(repository: string, kind: string, name: string)
    ensures Join([repository, "_manifests", kind, name]) == repository + "/" + "_manifests" + "/" + kind + "/" + name
  {
    JoinMore([repository], "_manifests", [repository, "_manifests"]);
    JoinMore([repository, "_manifests"], kind, [repository, "_manifests", kind]);
    JoinMore([repository, "_manifests", kind], name, [repository, "_manifests", kind, name]);
  }

  /** The paths spelled out. */
  lemma PathsAreSpelledOut(repository: string, tag: string, encoded: string)
    ensures TagDirectory(repository, tag) == repository + "/" + "_manifests" + "/" + "tags" + "/" + tag
    ensures TagLinkPath(repository, tag) == TagDirectory(repository, tag) + "/" + "current" + "/" + "link"
    ensures RevisionDirectory(repository, "sha256:" + encoded) ==
            repository + "/" + "_manifests" + "/" + "revisions" + "/" + "sha256" + "/" + encoded
    ensures RevisionPath(repository, "sha256:" + encoded) ==
            RevisionDirectory(repository, "sha256:" + encoded) + "/" + "link"
  {
    ManifestPath(repository, "tags", tag);
    var link := [repository, "_manifests", "tags", tag, "current", "link"];
    JoinMore(link[..4], "current", link[..5]);
    JoinMore(link[..5], "link", link);
    assert link[..4] == [repository, "_manifests", "tags", tag];
    ManifestPath(repository, "revisions", "sha256");
    var revision := [repository, "_manifests", "revisions", "sha256", encoded, "link"];
    JoinMore(revision[..4], encoded, revision[..5]);
    JoinMore(revision[..5], "link", revision);
    assert revision[..4] == [repository, "_manifests", "revisions", "sha256"];
    assert revision[..5] == [repository, "_manifests", "revisions", "sha256", encoded];
    assert ("sha256:" + encoded)[7..] == encoded;
  }

  /** A printed tag link reads back as its repository and tag. */
  lemma TagLinkRoundTrip(repository: string, tag: string)
    requires ValidRepository(repository) && ValidTag(tag)
    ensures SplitLinkPath(TagLinkPath(repository, tag)) == Some((repository, tag))
  {
    PlainComponent(tag);
    TagLinkComponents(repository, tag);
    var tail := ["_manifests", "tags", tag, "current", "link"];
    var parts := Split(repository) + tail;
    assert parts[|parts| - 5..] == tail;
    RepositoryReadsBack(repository, tail);
  }

  lemma RevisionRoundTrip(repository: string, digest: string)
    requires ValidRepository(repository) && ValidDigest(digest)
    ensures SplitRevisionPath(RevisionPath(repository, digest)) == Some((repository, digest))
  {
    PlainComponent(Encoded(digest));
    RevisionComponents(repository, digest);
    var tail := ["_manifests", "revisions", "sha256", Encoded(digest), "link"];
    var parts := Split(repository) + tail;
    assert parts[|parts| - 5..] == tail;
    RepositoryReadsBack(repository, tail);
    assert "sha256:" + Encoded(digest) == digest;
    assert ("sha256:" + Encoded(digest))[7..] == Encoded(digest);
  }

  lemma ReadRepositoryIsValid(parts: seq<string>)
    requires |parts| >= 6 && SplitRepository(parts).Some?
    ensures ValidRepository(SplitRepository(parts).value)
    ensures Split(SplitRepository(parts).value) == parts[..|parts| - 5]
  {
    var repositoryParts := parts[..|parts| - 5];
    forall part | part in repositoryParts ensures '/' !in part {
      PlainComponent(part);
    }
    SplitJoin(repositoryParts);
  }

  /** Whatever reads as a tag link is the printed link of a valid pair. */
  lemma TagLinkReadsOnlyItself(path: string)
    requires SplitLinkPath(path).Some?
    ensures var (repository, tag) := SplitLinkPath(path).value;
            ValidRepository(repository) && ValidTag(tag) && path == TagLinkPath(repository, tag)
  {
    var parts := Split(path);
    var (repository, tag) := SplitLinkPath(path).value;
    ReadRepositoryIsValid(parts);
    PlainComponent(tag);
    TagLinkComponents(repository, tag);
    assert parts == parts[..|parts| - 5] + parts[|parts| - 5..];
    assert parts[|parts| - 5..] == ["_manifests", "tags", tag, "current", "link"];
    JoinSplit(path);
    JoinSplit(TagLinkPath(repository, tag));
  }

  lemma RevisionReadsOnlyItself(path: string)
    requires SplitRevisionPath(path).Some?
    ensures var (repository, digest) := SplitRevisionPath(path).value;
            ValidRepository(repository) && ValidDigest(digest) && path == RevisionPath(repository, digest)
  {
    var parts := Split(path);
    var (repository, digest) := SplitRevisionPath(path).value;
    ReadRepositoryIsValid(parts);
    assert Encoded(digest) == parts[|parts| - 5..][3];
    PlainComponent(Encoded(digest));
    RevisionComponents(repository, digest);
    assert parts == parts[..|parts| - 5] + parts[|parts| - 5..];
    assert parts[|parts| - 5..] == ["_manifests", "revisions", "sha256", Encoded(digest), "link"];
    JoinSplit(path);
    JoinSplit(RevisionPath(repository, digest));
  }

  /** No path reads as both kinds of link, and a staged link reads as neither. */
  lemma LinksAreTold(path: string)
    ensures SplitLinkPath(path).None? || SplitRevisionPath(path).None?
    ensures forall repository, tag | ValidRepository(repository) && ValidTag(tag)
            && path == TagLinkPath(repository, tag) + ".new" ::
              SplitLinkPath(path).None? && SplitRevisionPath(path).None?
  {
    forall repository, tag | ValidRepository(repository) && ValidTag(tag)
        && path == TagLinkPath(repository, tag) + ".new"
      ensures SplitLinkPath(path).None? && SplitRevisionPath(path).None?
    {
      PlainComponent(tag);
      StagedLinkComponents(repository, tag);
      assert Split(path)[|Split(path)| - 1] == "link.new";
    }
  }
}
