/** The repositories tree of the registry container: what a tree says about tags
    and revisions, and the listing read from a copy of it
    (internal/compose/registry.go). */
module RegistryTree {
  import opened Basics
  import opened RegistryPaths

  /** Files other than regular ones (links, sockets) are never read. */
  datatype File = File(content: string, modTime: nat, regular: bool)

  type Tree = map<string, File>

  datatype RegistryContent = RegistryContent(
    repository: string, tag: string, digest: string, pushedAt: nat, manifestPushedAt: nat)

  datatype ListingError = LimitReached

  const MAX_REGISTRY_IMAGES := 1000
  const MAX_LINK_BYTES := 256

  predicate IsSpace(c: char) {
    c in {' ', '\t', '\n', '\r', 11 as char, 12 as char}
  }

  function TrimLeft(s: string): string {
    if s != "" && IsSpace(s[0]) then TrimLeft(s[1..]) else s
  }

  function TrimRight(s: string): string {
    if s != "" && IsSpace(s[|s| - 1]) then TrimRight(s[..|s| - 1]) else s
  }

  function TrimSpace(s: string): string {
    TrimRight(TrimLeft(s))
  }

  /** The digest a link file holds, or nothing. */
  function LinkDigest(file: File): string {
    var head := if |file.content| > MAX_LINK_BYTES then file.content[..MAX_LINK_BYTES] else file.content;
    if ValidDigest(TrimSpace(head)) then TrimSpace(head) else ""
  }

  // ----- What a tree says

  function TagAt(tree: Tree, repository: string, tag: string): Option<string> {
    var path := TagLinkPath(repository, tag);
    if ValidRepository(repository) && ValidTag(tag) && path in tree && tree[path].regular
       && LinkDigest(tree[path]) != ""
    then Some(LinkDigest(tree[path])) else None
  }

  function RevisionAt(tree: Tree, repository: string, digest: string): Option<nat> {
    var path := RevisionPath(repository, digest);
    if ValidRepository(repository) && ValidDigest(digest) && path in tree && tree[path].regular
       && LinkDigest(tree[path]) == digest
    then Some(tree[path].modTime) else None
  }

  // ----- Reading a copied tree

  datatype Entry = Entry(path: string, file: File)

  /** The entries are the files of the tree, each once, in any order. */
  ghost predicate IsWalk(tree: Tree, entries: seq<Entry>) {
    && (forall i, j | 0 <= i < j < |entries| :: entries[i].path != entries[j].path)
    && (forall e | e in entries :: e.path in tree && tree[e.path] == e.file)
    && (forall path | path in tree :: Entry(path, tree[path]) in entries)
  }

  /** The row of a tag link, if the entry is one with a valid digest. */
  function TagRow(e: Entry): Option<RegistryContent> {
    if !e.file.regular || SplitLinkPath(e.path).None? || LinkDigest(e.file) == "" then None
    else
      var (repository, tag) := SplitLinkPath(e.path).value;
      Some(RegistryContent(repository, tag, LinkDigest(e.file), e.file.modTime, 0))
  }

  /** The row of a revision link that holds its own digest. */
  function RevisionRow(e: Entry): Option<RegistryContent> {
    if !e.file.regular || SplitLinkPath(e.path).Some? || SplitRevisionPath(e.path).None? then None
    else
      var (repository, digest) := SplitRevisionPath(e.path).value;
      if LinkDigest(e.file) != digest then None
      else Some(RegistryContent(repository, "", digest, e.file.modTime, 0))
  }

  function TagRows(entries: seq<Entry>): seq<RegistryContent> {
    if entries == [] then [] else
      var row := TagRow(entries[|entries| - 1]);
      TagRows(entries[..|entries| - 1]) + if row.Some? then [row.value] else []
  }

  function RevisionRows(entries: seq<Entry>): seq<RegistryContent> {
    if entries == [] then [] else
      var row := RevisionRow(entries[|entries| - 1]);
      RevisionRows(entries[..|entries| - 1]) + if row.Some? then [row.value] else []
  }

  ghost function KeysOf(rows: seq<RegistryContent>): set<(string, string)> {
    set row | row in rows :: (row.repository, row.digest)
  }

  /** The revision time of a row's digest, zero if there is no such revision. */
  ghost predicate IsManifestTime(revisions: seq<RegistryContent>, row: RegistryContent, time: nat) {
    || (exists revision :: revision in revisions && revision.repository == row.repository
                           && revision.digest == row.digest && revision.pushedAt == time)
    || ((row.repository, row.digest) !in KeysOf(revisions) && time == 0)
  }

  /** What the reader returns for the rows it met: every tag row, stamped with its
      revision time, and every revision that no tag of its repository names. */
  ghost predicate IsListing(tags: seq<RegistryContent>, revisions: seq<RegistryContent>, rows: seq<RegistryContent>) {
    && |rows| >= |tags|
    && (forall i | 0 <= i < |tags| ::
          && rows[i] == tags[i].(manifestPushedAt := rows[i].manifestPushedAt)
          && IsManifestTime(revisions, tags[i], rows[i].manifestPushedAt))
    && rows[|tags|..] == Untagged(KeysOf(tags), revisions)
  }

  /** The revisions whose repository and digest no tag row has. */
  ghost function Untagged(tagged: set<(string, string)>, revisions: seq<RegistryContent>): seq<RegistryContent> {
    if revisions == [] then [] else
      var last := revisions[|revisions| - 1];
      Untagged(tagged, revisions[..|revisions| - 1])
      + if (last.repository, last.digest) in tagged then [] else [last.(manifestPushedAt := last.pushedAt)]
  }

  /** The walk's callback: one link file after the other. */
  method CollectRows(entries: seq<Entry>)
      returns (limited: bool, contents: seq<RegistryContent>, revisions: seq<RegistryContent>,
               tagged: set<(string, string)>)
    ensures limited <==> |TagRows(entries)| > MAX_REGISTRY_IMAGES || |RevisionRows(entries)| > MAX_REGISTRY_IMAGES
    ensures !limited ==> contents == TagRows(entries) && revisions == RevisionRows(entries)
                         && tagged == KeysOf(contents)
  {
    limited, contents, revisions, tagged := false, [], [], {};
    for i := 0 to |entries|
      invariant contents == TagRows(entries[..i]) && revisions == RevisionRows(entries[..i])
      invariant tagged == KeysOf(contents)
      invariant |contents| <= MAX_REGISTRY_IMAGES && |revisions| <= MAX_REGISTRY_IMAGES
      invariant !limited
    {
      assert entries[..i + 1][..i] == entries[..i];
      RowsGrow(entries, i + 1);
      var entry := entries[i];
      if !entry.file.regular {
        continue;
      }
      var link, revision := SplitLinkPath(entry.path), SplitRevisionPath(entry.path);
      if link.None? && revision.None? {
        continue;
      }
      var digest := LinkDigest(entry.file);
      if digest == "" {
        EmptyIsNoDigest(entry.path);
        continue;
      }
      if link.None? {
        if digest == revision.value.1 {
          if |revisions| >= MAX_REGISTRY_IMAGES {
            limited := true;
            return;
          }
          revisions := revisions + [RegistryContent(revision.value.0, "", digest, entry.file.modTime, 0)];
        }
      } else {
        if |contents| >= MAX_REGISTRY_IMAGES {
          limited := true;
          return;
        }
        var content := RegistryContent(link.value.0, link.value.1, digest, entry.file.modTime, 0);
        KeysGrow(contents, content);
        tagged := tagged + {(content.repository, content.digest)};
        contents := contents + [content];
      }
    }
    assert entries[..|entries|] == entries;
  }

  method ReadRegistryContents(entries: seq<Entry>) returns (r: Result<seq<RegistryContent>, ListingError>)
    ensures var tags, revisions := TagRows(entries), RevisionRows(entries);
            if |tags| > 1000 || |revisions| > 1000 || |tags| + |Untagged(KeysOf(tags), revisions)| > 1000
            then r == Err(LimitReached)
            else r.Ok? && IsListing(tags, revisions, r.value)
  {
    var limited, contents, revisions, tagged := CollectRows(entries);
    if limited {
      return Err(LimitReached);
    }
    var rows := StampManifestTimes(contents, revisions);
    r := AppendUntagged(rows, tagged, revisions);
  }

  method AppendUntagged(stamped: seq<RegistryContent>, tagged: set<(string, string)>, revisions: seq<RegistryContent>)
      returns (r: Result<seq<RegistryContent>, ListingError>)
    requires |stamped| <= MAX_REGISTRY_IMAGES
    ensures r == if |stamped| + |Untagged(tagged, revisions)| > MAX_REGISTRY_IMAGES then Err(LimitReached)
                 else Ok(stamped + Untagged(tagged, revisions))
  {
    var rows := stamped;
    for i := 0 to |revisions|
      invariant rows == stamped + Untagged(tagged, revisions[..i]) && |rows| <= MAX_REGISTRY_IMAGES
    {
      assert revisions[..i + 1][..i] == revisions[..i];
      UntaggedGrows(tagged, revisions, i + 1);
      if (revisions[i].repository, revisions[i].digest) !in tagged {
        if |rows| >= MAX_REGISTRY_IMAGES {
          return Err(LimitReached);
        }
        rows := rows + [revisions[i].(manifestPushedAt := revisions[i].pushedAt)];
      }
    }
    assert revisions[..|revisions|] == revisions;
    return Ok(rows);
  }

  method StampManifestTimes(contents: seq<RegistryContent>, revisions: seq<RegistryContent>)
      returns (rows: seq<RegistryContent>)
    ensures |rows| == |contents|
    ensures forall i | 0 <= i < |rows| ::
              && rows[i] == contents[i].(manifestPushedAt := rows[i].manifestPushedAt)
              && IsManifestTime(revisions, contents[i], rows[i].manifestPushedAt)
  {
    var times: map<(string, string), nat> := map[];
    for i := 0 to |revisions|
      invariant times.Keys == KeysOf(revisions[..i])
      invariant forall key | key in times ::
                  exists revision :: revision in revisions && (revision.repository, revision.digest) == key
                                     && revision.pushedAt == times[key]
    {
      assert revisions[..i + 1] == revisions[..i] + [revisions[i]];
      KeysGrow(revisions[..i], revisions[i]);
      times := times[(revisions[i].repository, revisions[i].digest) := revisions[i].pushedAt];
    }
    assert revisions[..|revisions|] == revisions;
    rows := contents;
    for i := 0 to |rows|
      invariant |rows| == |contents| && rows[i..] == contents[i..]
      invariant forall k | 0 <= k < i ::
                  && rows[k] == contents[k].(manifestPushedAt := rows[k].manifestPushedAt)
                  && IsManifestTime(revisions, contents[k], rows[k].manifestPushedAt)
    {
      var key := (rows[i].repository, rows[i].digest);
      var time := if key in times then times[key] else 0;
      assert rows[i] == contents[i];
      rows := rows[i := rows[i].(manifestPushedAt := time)];
    }
  }

  lemma KeysGrow(rows: seq<RegistryContent>, row: RegistryContent)
    ensures KeysOf(rows + [row]) == KeysOf(rows) + {(row.repository, row.digest)}
  {
    assert row in rows + [row];
    forall r | r in rows ensures r in rows + [row] {
    }
  }

  lemma EmptyIsNoDigest(path: string)
    ensures SplitRevisionPath(path).Some? ==> SplitRevisionPath(path).value.1 != ""
  {
  }

  lemma {:induction false} RowsGrow(entries: seq<Entry>, n: nat)
    requires n <= |entries|
    ensures |TagRows(entries[..n])| <= |TagRows(entries)| && |RevisionRows(entries[..n])| <= |RevisionRows(entries)|
  {
    if n < |entries| {
      RowsGrow(entries[..|entries| - 1], n);
      assert entries[..|entries| - 1][..n] == entries[..n];
    } else {
      assert entries[..n] == entries;
    }
  }

  lemma {:induction false} UntaggedGrows(tagged: set<(string, string)>, revisions: seq<RegistryContent>, n: nat)
    requires n <= |revisions|
    ensures |Untagged(tagged, revisions[..n])| <= |Untagged(tagged, revisions)|
  {
    if n < |revisions| {
      UntaggedGrows(tagged, revisions[..|revisions| - 1], n);
      assert revisions[..|revisions| - 1][..n] == revisions[..n];
    } else {
      assert revisions[..n] == revisions;
    }
  }

  // ----- What a listing says about the tree

  lemma {:induction false} RowsComeFromEntries(entries: seq<Entry>)
    ensures forall row :: row in TagRows(entries) <==> exists e :: e in entries && TagRow(e) == Some(row)
    ensures forall row :: row in RevisionRows(entries) <==> exists e :: e in entries && RevisionRow(e) == Some(row)
  {
    if entries != [] {
      var last := |entries| - 1;
      RowsComeFromEntries(entries[..last]);
      assert entries == entries[..last] + [entries[last]];
    }
  }

  /** The row a tag link of the tree produces. */
  ghost predicate IsTagRow(tree: Tree, row: RegistryContent) {
    && TagAt(tree, row.repository, row.tag) == Some(row.digest)
    && row.pushedAt == tree[TagLinkPath(row.repository, row.tag)].modTime
    && row.manifestPushedAt == 0
  }

  lemma TagRowIff(tree: Tree, entries: seq<Entry>, row: RegistryContent)
    requires IsWalk(tree, entries)
    ensures row in TagRows(entries) <==> IsTagRow(tree, row)
  {
    RowsComeFromEntries(entries);
    if row in TagRows(entries) {
      var e :| e in entries && TagRow(e) == Some(row);
      TagLinkReadsOnlyItself(e.path);
    }
    if IsTagRow(tree, row) {
      var path := TagLinkPath(row.repository, row.tag);
      TagLinkRoundTrip(row.repository, row.tag);
      assert Entry(path, tree[path]) in entries;
    }
  }

  lemma RevisionRowIff(tree: Tree, entries: seq<Entry>, row: RegistryContent)
    requires IsWalk(tree, entries)
    ensures row in RevisionRows(entries) <==>
            row.tag == "" && row.manifestPushedAt == 0
            && RevisionAt(tree, row.repository, row.digest) == Some(row.pushedAt)
  {
    RowsComeFromEntries(entries);
    if row in RevisionRows(entries) {
      var e :| e in entries && RevisionRow(e) == Some(row);
      RevisionReadsOnlyItself(e.path);
    }
    if row.tag == "" && row.manifestPushedAt == 0
       && RevisionAt(tree, row.repository, row.digest) == Some(row.pushedAt) {
      var path := RevisionPath(row.repository, row.digest);
      RevisionRoundTrip(row.repository, row.digest);
      LinksAreTold(path);
      assert Entry(path, tree[path]) in entries;
    }
  }

  function RevisionTime(tree: Tree, repository: string, digest: string): nat {
    if RevisionAt(tree, repository, digest).Some? then RevisionAt(tree, repository, digest).value else 0
  }

  /** The rows a listing of the tree has: one per tag link, stamped with the time
      of its revision, and one per revision no tag of its repository names. */
  ghost predicate Listed(tree: Tree, row: RegistryContent) {
    if row.tag != "" then
      && TagAt(tree, row.repository, row.tag) == Some(row.digest)
      && row.pushedAt == tree[TagLinkPath(row.repository, row.tag)].modTime
      && row.manifestPushedAt == RevisionTime(tree, row.repository, row.digest)
    else
      && RevisionAt(tree, row.repository, row.digest) == Some(row.pushedAt)
      && row.manifestPushedAt == row.pushedAt
      && forall tag :: TagAt(tree, row.repository, tag) != Some(row.digest)
  }

  ghost predicate SameRow(a: RegistryContent, b: RegistryContent) {
    a.repository == b.repository && a.tag == b.tag && (a.tag != "" || a.digest == b.digest)
  }

  ghost predicate NoRepeats(rows: seq<RegistryContent>) {
    forall i, j | 0 <= i < j < |rows| :: !SameRow(rows[i], rows[j])
  }

  lemma TagRowPath(e: Entry, e': Entry)
    requires TagRow(e).Some? && TagRow(e').Some? && SameRow(TagRow(e).value, TagRow(e').value)
    ensures e.path == e'.path && TagRow(e).value.tag != ""
  {
    TagLinkReadsOnlyItself(e.path);
    TagLinkReadsOnlyItself(e'.path);
  }

  lemma RevisionRowPath(e: Entry, e': Entry)
    requires RevisionRow(e).Some? && RevisionRow(e').Some? && SameRow(RevisionRow(e).value, RevisionRow(e').value)
    ensures e.path == e'.path
  {
    RevisionReadsOnlyItself(e.path);
    RevisionReadsOnlyItself(e'.path);
  }

  lemma {:induction false} RowsDoNotRepeat(entries: seq<Entry>)
    requires forall i, j | 0 <= i < j < |entries| :: entries[i].path != entries[j].path
    ensures NoRepeats(TagRows(entries)) && NoRepeats(RevisionRows(entries))
  {
    if entries != [] {
      var last := |entries| - 1;
      RowsDoNotRepeat(entries[..last]);
      RowsComeFromEntries(entries[..last]);
      var e := entries[last];
      if TagRow(e).Some? {
        forall row | row in TagRows(entries[..last]) ensures !SameRow(row, TagRow(e).value) {
          var e' :| e' in entries[..last] && TagRow(e') == Some(row);
          if SameRow(row, TagRow(e).value) {
            TagRowPath(e', e);
          }
        }
      }
      if RevisionRow(e).Some? {
        forall row | row in RevisionRows(entries[..last]) ensures !SameRow(row, RevisionRow(e).value) {
          var e' :| e' in entries[..last] && RevisionRow(e') == Some(row);
          if SameRow(row, RevisionRow(e).value) {
            RevisionRowPath(e', e);
          }
        }
      }
    }
  }

  lemma {:induction false} UntaggedRows(tagged: set<(string, string)>, revisions: seq<RegistryContent>)
    ensures forall row :: row in Untagged(tagged, revisions) <==>
              exists r :: r in revisions && (r.repository, r.digest) !in tagged
                          && row == r.(manifestPushedAt := r.pushedAt)
  {
    if revisions != [] {
      var last := |revisions| - 1;
      UntaggedRows(tagged, revisions[..last]);
      assert revisions == revisions[..last] + [revisions[last]];
    }
  }

  lemma {:induction false} UntaggedDoNotRepeat(tagged: set<(string, string)>, revisions: seq<RegistryContent>)
    requires NoRepeats(revisions)
    ensures NoRepeats(Untagged(tagged, revisions))
  {
    if revisions != [] {
      var last := |revisions| - 1;
      UntaggedDoNotRepeat(tagged, revisions[..last]);
      UntaggedRows(tagged, revisions[..last]);
      var added := revisions[last].(manifestPushedAt := revisions[last].pushedAt);
      forall row | row in Untagged(tagged, revisions[..last]) ensures !SameRow(row, added) {
        var r :| r in revisions[..last] && row == r.(manifestPushedAt := r.pushedAt);
        var k :| 0 <= k < last && revisions[k] == r;
        assert !SameRow(revisions[k], revisions[last]);
      }
    }
  }

  lemma ManifestTimeIsRevisionTime(tree: Tree, entries: seq<Entry>, row: RegistryContent, time: nat)
    requires IsWalk(tree, entries) && IsManifestTime(RevisionRows(entries), row, time)
    ensures time == RevisionTime(tree, row.repository, row.digest)
  {
    var revisions := RevisionRows(entries);
    if revision :| revision in revisions && revision.repository == row.repository
                   && revision.digest == row.digest && revision.pushedAt == time {
      RevisionRowIff(tree, entries, revision);
    } else if RevisionAt(tree, row.repository, row.digest).Some? {
      var revision := RegistryContent(row.repository, "", row.digest,
                                      RevisionAt(tree, row.repository, row.digest).value, 0);
      RevisionRowIff(tree, entries, revision);
    }
  }

  lemma TaggedKeys(tree: Tree, entries: seq<Entry>, repository: string, digest: string)
    requires IsWalk(tree, entries)
    ensures (repository, digest) in KeysOf(TagRows(entries)) <==>
            exists tag :: TagAt(tree, repository, tag) == Some(digest)
  {
    if (repository, digest) in KeysOf(TagRows(entries)) {
      var row :| row in TagRows(entries) && row.repository == repository && row.digest == digest;
      TagRowIff(tree, entries, row);
    }
    if tag :| TagAt(tree, repository, tag) == Some(digest) {
      var row := RegistryContent(repository, tag, digest, tree[TagLinkPath(repository, tag)].modTime, 0);
      TagRowIff(tree, entries, row);
    }
  }

  lemma StampedRowListed(tree: Tree, entries: seq<Entry>, rows: seq<RegistryContent>, i: nat)
    requires IsWalk(tree, entries) && IsListing(TagRows(entries), RevisionRows(entries), rows)
    requires i < |TagRows(entries)|
    ensures rows[i].tag != "" && Listed(tree, rows[i])
  {
    TagRowIff(tree, entries, TagRows(entries)[i]);
    ManifestTimeIsRevisionTime(tree, entries, TagRows(entries)[i], rows[i].manifestPushedAt);
  }

  lemma UntaggedRowIff(tree: Tree, entries: seq<Entry>, row: RegistryContent)
    requires IsWalk(tree, entries)
    ensures row in Untagged(KeysOf(TagRows(entries)), RevisionRows(entries)) <==> row.tag == "" && Listed(tree, row)
  {
    var tagged, revisions := KeysOf(TagRows(entries)), RevisionRows(entries);
    UntaggedRows(tagged, revisions);
    TaggedKeys(tree, entries, row.repository, row.digest);
    if row in Untagged(tagged, revisions) {
      var r :| r in revisions && (r.repository, r.digest) !in tagged && row == r.(manifestPushedAt := r.pushedAt);
      RevisionRowIff(tree, entries, r);
    }
    if row.tag == "" && Listed(tree, row) {
      var r := row.(manifestPushedAt := 0);
      RevisionRowIff(tree, entries, r);
      assert row == r.(manifestPushedAt := r.pushedAt);
    }
  }

  lemma TagListed(tree: Tree, entries: seq<Entry>, rows: seq<RegistryContent>, row: RegistryContent)
    requires IsWalk(tree, entries) && IsListing(TagRows(entries), RevisionRows(entries), rows)
    requires row.tag != "" && Listed(tree, row)
    ensures row in rows
  {
    var tags := TagRows(entries);
    var tagRow := row.(manifestPushedAt := 0);
    TagRowIff(tree, entries, tagRow);
    var i :| 0 <= i < |tags| && tags[i] == tagRow;
    ManifestTimeIsRevisionTime(tree, entries, tags[i], rows[i].manifestPushedAt);
    assert rows[i] == row;
  }

  lemma ListedIff(tree: Tree, entries: seq<Entry>, rows: seq<RegistryContent>, row: RegistryContent)
    requires IsWalk(tree, entries) && IsListing(TagRows(entries), RevisionRows(entries), rows)
    ensures row in rows <==> Listed(tree, row)
  {
    var tags := TagRows(entries);
    var rest := Untagged(KeysOf(tags), RevisionRows(entries));
    assert rows == rows[..|tags|] + rest;
    UntaggedRowIff(tree, entries, row);
    if row in rows[..|tags|] {
      var i :| 0 <= i < |tags| && rows[i] == row;
      StampedRowListed(tree, entries, rows, i);
    }
    if row.tag != "" && Listed(tree, row) {
      TagListed(tree, entries, rows, row);
    }
  }

  lemma ListingDoesNotRepeat(tree: Tree, entries: seq<Entry>, rows: seq<RegistryContent>)
    requires IsWalk(tree, entries) && IsListing(TagRows(entries), RevisionRows(entries), rows)
    ensures NoRepeats(rows)
  {
    var tags, revisions := TagRows(entries), RevisionRows(entries);
    var rest := Untagged(KeysOf(tags), revisions);
    RowsDoNotRepeat(entries);
    UntaggedDoNotRepeat(KeysOf(tags), revisions);
    forall i, j | 0 <= i < j < |rows| ensures !SameRow(rows[i], rows[j]) {
      if j < |tags| {
        assert !SameRow(tags[i], tags[j]);
      } else if i < |tags| {
        StampedRowListed(tree, entries, rows, i);
        assert rows[j] == rest[j - |tags|];
        UntaggedRowIff(tree, entries, rest[j - |tags|]);
      } else {
        assert !SameRow(rest[i - |tags|], rest[j - |tags|]);
      }
    }
  }

  /** Whatever order the walk took, a listing has exactly the rows of the tree,
      each once. */
  lemma ListingMeaning(tree: Tree, entries: seq<Entry>, rows: seq<RegistryContent>)
    requires IsWalk(tree, entries) && IsListing(TagRows(entries), RevisionRows(entries), rows)
    ensures forall row :: row in rows <==> Listed(tree, row)
    ensures NoRepeats(rows)
  {
    forall row ensures row in rows <==> Listed(tree, row) {
      ListedIff(tree, entries, rows, row);
    }
    ListingDoesNotRepeat(tree, entries, rows);
  }
}
