/** The registry container as the manager changes it: a tree of files, rewritten by
    commands that may fail, and every tree it has had on the way
    (internal/compose/registry.go, registry_retention.go). */
module RegistryStore {
  import opened Basics
  import opened RegistryPaths
  import opened RegistryTree

  datatype StoreError =
    | ContainerRequired | RepositoryInvalid | TagInvalid | DigestInvalid
    | ImageAbsent | CommandFailed | Cancelled | ListingFailed(reason: Option<ListingError>)

  /** The path is the directory or lies below it. */
  predicate Under(directory: string, path: string) {
    directory <= path && (|path| == |directory| || path[|directory|] == '/')
  }

  // ----- Which links a directory holds

  lemma SplitBelow(directory: string, path: string) returns (rest: seq<string>)
    requires Under(directory, path)
    ensures Split(path) == Split(directory) + rest
  {
    if |path| == |directory| {
      assert path == directory;
      rest := [];
    } else {
      var below := path[|directory| + 1..];
      assert path == directory + "/" + below;
      SplitAtSlash(directory, below);
      rest := Split(below);
    }
  }

  /** Two ways to split a list at its first "_manifests" are the same. */
  lemma SameRepositoryParts(a: seq<string>, x: seq<string>, b: seq<string>, y: seq<string>)
    requires a + ["_manifests"] + x == b + ["_manifests"] + y
    requires "_manifests" !in a && "_manifests" !in b
    ensures a == b && x == y
  {
    var whole := a + ["_manifests"] + x;
    assert forall i | 0 <= i < |a| :: whole[i] == a[i] && a[i] in a;
    assert forall i | 0 <= i < |b| :: whole[i] == b[i] && b[i] in b;
    assert whole[|a|] == whole[|b|] == "_manifests";
    assert |a| == |b|;
    assert a == whole[..|a|] && b == whole[..|b|];
    assert x == whole[|a| + 1..] && y == whole[|b| + 1..];
  }

  lemma RepositoryHasNoManifests(repository: string)
    requires ValidRepository(repository)
    ensures "_manifests" !in Split(repository)
  {
    forall part | part in Split(repository) ensures part != "_manifests" {
      PlainComponent(part);
    }
  }

  lemma LinkShape(path: string) returns (repository: string, tag: string)
    requires SplitLinkPath(path).Some?
    ensures SplitLinkPath(path) == Some((repository, tag)) && ValidRepository(repository)
    ensures Split(path) == Split(repository) + ["_manifests"] + ["tags", tag, "current", "link"]
  {
    repository, tag := SplitLinkPath(path).value.0, SplitLinkPath(path).value.1;
    TagLinkReadsOnlyItself(path);
    PlainComponent(tag);
    TagLinkComponents(repository, tag);
  }

  lemma RevisionShape(path: string) returns (repository: string, digest: string)
    requires SplitRevisionPath(path).Some?
    ensures SplitRevisionPath(path) == Some((repository, digest))
    ensures ValidRepository(repository) && ValidDigest(digest)
    ensures Split(path) == Split(repository) + ["_manifests"] + ["revisions", "sha256", Encoded(digest), "link"]
  {
    repository, digest := SplitRevisionPath(path).value.0, SplitRevisionPath(path).value.1;
    RevisionReadsOnlyItself(path);
    RevisionParts(repository, digest);
  }

  lemma RevisionParts(repository: string, digest: string)
    requires ValidRepository(repository) && ValidDigest(digest)
    ensures Split(RevisionPath(repository, digest)) ==
            Split(repository) + ["_manifests"] + ["revisions", "sha256", Encoded(digest), "link"]
  {
    PlainComponent(Encoded(digest));
    RevisionComponents(repository, digest);
  }

  /** A link is read at the first "_manifests" of its path. */
  lemma SameRepository(repository: string, x: seq<string>, repository': string, x': seq<string>)
    requires ValidRepository(repository) && ValidRepository(repository')
    requires Split(repository) + ["_manifests"] + x == Split(repository') + ["_manifests"] + x'
    ensures repository == repository' && x == x'
  {
    RepositoryHasNoManifests(repository);
    RepositoryHasNoManifests(repository');
    SameRepositoryParts(Split(repository), x, Split(repository'), x');
    JoinSplit(repository);
    JoinSplit(repository');
  }

  lemma LinkTail(repository: string, tail: seq<string>, path: string)
    requires ValidRepository(repository) && SplitLinkPath(path).Some?
    requires Split(path) == Split(repository) + ["_manifests"] + tail
    ensures SplitLinkPath(path).value.0 == repository
    ensures tail == ["tags", SplitLinkPath(path).value.1, "current", "link"]
  {
    var r, t := LinkShape(path);
    SameRepository(repository, tail, r, ["tags", t, "current", "link"]);
  }

  lemma RevisionTail(repository: string, tail: seq<string>, path: string)
    requires ValidRepository(repository) && SplitRevisionPath(path).Some?
    requires Split(path) == Split(repository) + ["_manifests"] + tail
    ensures SplitRevisionPath(path).value.0 == repository && ValidDigest(SplitRevisionPath(path).value.1)
    ensures tail == ["revisions", "sha256", Encoded(SplitRevisionPath(path).value.1), "link"]
  {
    var r, d := RevisionShape(path);
    SameRepository(repository, tail, r, ["revisions", "sha256", Encoded(d), "link"]);
  }

  lemma SplitManifestsDirectory(repository: string, below: seq<string>, path: string) returns (tail: seq<string>)
    requires forall part | part in below :: '/' !in part
    requires Under(Join([repository, "_manifests"] + below), path)
    ensures Split(path) == Split(repository) + ["_manifests"] + tail && below <= tail
  {
    var directory := Join([repository, "_manifests"] + below);
    assert [repository] + (["_manifests"] + below) == [repository, "_manifests"] + below;
    SplitUnder(repository, ["_manifests"] + below);
    assert Split(directory) == Split(repository) + (["_manifests"] + below);
    var rest := SplitBelow(directory, path);
    tail := below + rest;
    assert Split(repository) + (["_manifests"] + below) + rest == Split(repository) + ["_manifests"] + tail;
  }

  /** Below the directory of a tag the only link is the one of that tag. */
  lemma TagDirectoryOwnsLinks(repository: string, tag: string, path: string)
    requires ValidRepository(repository) && ValidTag(tag) && Under(TagDirectory(repository, tag), path)
    ensures SplitLinkPath(path).Some? ==> SplitLinkPath(path).value == (repository, tag)
    ensures SplitRevisionPath(path).None?
  {
    PlainComponent(tag);
    assert [repository, "_manifests"] + ["tags", tag] == [repository, "_manifests", "tags", tag];
    var tail := SplitManifestsDirectory(repository, ["tags", tag], path);
    assert tail[0] == "tags" && tail[1] == tag;
    if SplitLinkPath(path).Some? {
      LinkTail(repository, tail, path);
    }
    if SplitRevisionPath(path).Some? {
      RevisionTail(repository, tail, path);
    }
  }

  /** Below the directory of a revision the only link is the one of that revision. */
  lemma RevisionDirectoryOwnsLinks(repository: string, digest: string, path: string)
    requires ValidRepository(repository) && ValidDigest(digest)
    requires Under(RevisionDirectory(repository, digest), path)
    ensures SplitLinkPath(path).None?
    ensures SplitRevisionPath(path).Some? ==> SplitRevisionPath(path).value == (repository, digest)
  {
    PlainComponent(Encoded(digest));
    var below := ["revisions", "sha256", Encoded(digest)];
    assert [repository, "_manifests"] + below ==
           [repository, "_manifests", "revisions", "sha256", Encoded(digest)];
    var tail := SplitManifestsDirectory(repository, below, path);
    assert tail[0] == "revisions" && tail[2] == Encoded(digest);
    if SplitLinkPath(path).Some? {
      LinkTail(repository, tail, path);
    }
    if SplitRevisionPath(path).Some? {
      RevisionTail(repository, tail, path);
      var d := SplitRevisionPath(path).value.1;
      assert d == d[..7] + Encoded(d) && digest == digest[..7] + Encoded(digest);
    }
  }

  // ----- Changes seen through links

  ghost predicate IsLink(path: string) {
    SplitLinkPath(path).Some? || SplitRevisionPath(path).Some?
  }

  function FileAt(tree: Tree, path: string): Option<File> {
    if path in tree then Some(tree[path]) else None
  }

  /** Nothing a listing reads changed, except possibly at one path. */
  ghost predicate SameLinksBut(before: Tree, after: Tree, changed: string) {
    forall path | IsLink(path) && path != changed :: FileAt(after, path) == FileAt(before, path)
  }

  ghost predicate SameLinks(before: Tree, after: Tree) {
    forall path | IsLink(path) :: FileAt(after, path) == FileAt(before, path)
  }

  /** Some files below the directory are gone; nothing else happened. */
  ghost predicate RemovedUnder(before: Tree, after: Tree, directory: string) {
    && after.Keys <= before.Keys
    && (forall path | path in after :: after[path] == before[path])
    && (forall path | path in before && !Under(directory, path) :: path in after)
  }

  lemma LinksAreUnderTheirDirectories(repository: string, tag: string, digest: string)
    ensures Under(TagDirectory(repository, tag), TagLinkPath(repository, tag))
    ensures Under(RevisionDirectory(repository, digest), RevisionPath(repository, digest))
  {
    JoinConcat([repository, "_manifests", "tags", tag], ["current", "link"]);
    assert [repository, "_manifests", "tags", tag] + ["current", "link"] ==
           [repository, "_manifests", "tags", tag, "current", "link"];
    JoinConcat([repository, "_manifests", "revisions", "sha256", Encoded(digest)], ["link"]);
    assert [repository, "_manifests", "revisions", "sha256", Encoded(digest)] + ["link"] ==
           [repository, "_manifests", "revisions", "sha256", Encoded(digest), "link"];
  }

  lemma RemovingTagDirectory(before: Tree, after: Tree, repository: string, tag: string)
    requires ValidRepository(repository) && ValidTag(tag)
    requires RemovedUnder(before, after, TagDirectory(repository, tag))
    ensures SameLinksBut(before, after, TagLinkPath(repository, tag))
    ensures (forall path | path in after :: !Under(TagDirectory(repository, tag), path)) ==>
              TagLinkPath(repository, tag) !in after
  {
    LinksAreUnderTheirDirectories(repository, tag, "");
    forall path | IsLink(path) && path != TagLinkPath(repository, tag)
      ensures FileAt(after, path) == FileAt(before, path)
    {
      if Under(TagDirectory(repository, tag), path) {
        TagDirectoryOwnsLinks(repository, tag, path);
        TagLinkReadsOnlyItself(path);
      }
    }
  }

  lemma RemovingRevisionDirectory(before: Tree, after: Tree, repository: string, digest: string)
    requires ValidRepository(repository) && ValidDigest(digest)
    requires RemovedUnder(before, after, RevisionDirectory(repository, digest))
    ensures SameLinksBut(before, after, RevisionPath(repository, digest))
    ensures (forall path | path in after :: !Under(RevisionDirectory(repository, digest), path)) ==>
              RevisionPath(repository, digest) !in after
  {
    LinksAreUnderTheirDirectories(repository, "", digest);
    forall path | IsLink(path) && path != RevisionPath(repository, digest)
      ensures FileAt(after, path) == FileAt(before, path)
    {
      if Under(RevisionDirectory(repository, digest), path) {
        RevisionDirectoryOwnsLinks(repository, digest, path);
        RevisionReadsOnlyItself(path);
      }
    }
  }

  lemma SameFileSameTag(before: Tree, after: Tree, repository: string, tag: string)
    requires FileAt(after, TagLinkPath(repository, tag)) == FileAt(before, TagLinkPath(repository, tag))
    ensures TagAt(after, repository, tag) == TagAt(before, repository, tag)
  {
  }

  lemma TagLinkIsLink(repository: string, tag: string)
    requires ValidRepository(repository) && ValidTag(tag)
    ensures IsLink(TagLinkPath(repository, tag))
  {
    TagLinkRoundTrip(repository, tag);
  }

  lemma RevisionIsLink(repository: string, digest: string)
    requires ValidRepository(repository) && ValidDigest(digest)
    ensures IsLink(RevisionPath(repository, digest))
  {
    RevisionRoundTrip(repository, digest);
  }

  // ----- The container

  class Registry {
    var files: Tree
    /** Every tree the container has had, the current one last. */
    ghost var history: seq<Tree>

    ghost predicate Recorded()
      reads this
    {
      history != [] && history[|history| - 1] == files
    }

    constructor (files: Tree)
      ensures Recorded() && this.files == files && history == [files]
    {
      this.files := files;
      this.history := [files];
    }

    /** rm -rf: a failing removal may have removed part of the directory. */
    method Remove(directory: string) returns (ok: bool)
      requires Recorded()
      modifies this
      ensures Recorded() && history == old(history) + [files]
      ensures RemovedUnder(old(files), files, directory)
      ensures ok ==> forall path | path in files :: !Under(directory, path)
    {
      ok := *;
      var below := set path | path in files && Under(directory, path);
      var gone :| gone <= below && (ok ==> gone == below);
      files := files - gone;
      history := history + [files];
    }

    /** cp: a failing copy may leave anything at its target. */
    method Copy(content: string, target: string) returns (ok: bool)
      requires Recorded()
      modifies this
      ensures Recorded() && history == old(history) + [files]
      ensures forall path | path != target :: FileAt(files, path) == FileAt(old(files), path)
      ensures ok ==> target in files && files[target].regular && files[target].content == content
    {
      ok := *;
      var now: nat := *;
      var partial: string := *;
      if ok {
        files := files[target := File(content, now, true)];
      } else if * {
        files := files[target := File(partial, now, true)];
      }
      history := history + [files];
    }

    /** mv -f: an atomic rename, or nothing. */
    method Move(source: string, target: string) returns (ok: bool)
      requires Recorded() && source != target
      modifies this
      ensures Recorded() && history == old(history) + [files]
      ensures !ok ==> files == old(files)
      ensures ok ==> source in old(files) && files == (old(files) - {source})[target := old(files)[source]]
    {
      ok := *;
      ok := ok && source in files;
      if ok {
        files := (files - {source})[target := files[source]];
      }
      history := history + [files];
    }

    /** cat: the trimmed content of a file, or a failure. */
    method Read(path: string) returns (r: Option<string>, ghost worked: bool)
      ensures r.Some? <==> worked && path in files
      ensures r.Some? ==> r.value == TrimSpace(files[path].content)
    {
      var ok: bool := *;
      worked := ok;
      r := if ok && path in files then Some(TrimSpace(files[path].content)) else None;
    }

    method DeleteRegistryTag(container: string, repository: string, tag: string)
        returns (error: Option<StoreError>)
      requires Recorded()
      modifies this
      ensures Recorded() && old(history) <= history
      ensures DeleteTagRefusal(container, repository, tag).Some? ==>
                error == DeleteTagRefusal(container, repository, tag) && history == old(history)
      ensures error == Some(ContainerRequired) <==> TrimSpace(container) == ""
      ensures error == Some(RepositoryInvalid) <==>
                TrimSpace(container) != "" && !ValidRepository(TrimSpace(repository))
      ensures error == Some(TagInvalid) <==>
                && TrimSpace(container) != "" && ValidRepository(TrimSpace(repository))
                && !ValidTag(TrimSpace(tag))
      ensures forall k | |old(history)| <= k < |history| ::
                Shrunk(old(files), history[k], TagLinkPath(TrimSpace(repository), TrimSpace(tag)))
      ensures error.None? ==> TagLinkPath(TrimSpace(repository), TrimSpace(tag)) !in files
    {
      if TrimSpace(container) == "" {
        return Some(ContainerRequired);
      }
      var repository := TrimSpace(repository);
      if !ValidRepository(repository) {
        return Some(RepositoryInvalid);
      }
      var tag := TrimSpace(tag);
      if !ValidTag(tag) {
        return Some(TagInvalid);
      }
      var ok := Remove(TagDirectory(repository, tag));
      RemovingTagDirectory(old(files), files, repository, tag);
      error := if ok then None else Some(CommandFailed);
    }

    /** Points a tag at a digest. In every tree on the way, also when a command
        fails, only this tag's link differs, and then it holds the whole new digest.
        The flags tell whether the two reads worked: of the revision, which decides
        whether there is such an image, and of the old link. */
    method MoveRegistryTag(container: string, repository: string, tag: string, digest: string)
        returns (previous: string, error: Option<StoreError>, ghost revisionRead: bool, ghost linkRead: bool)
      requires Recorded()
      modifies this
      ensures Recorded() && old(history) <= history
      ensures MoveRefusal(container, repository, tag, digest).Some? ==>
                error == MoveRefusal(container, repository, tag, digest) && history == old(history)
      ensures error == Some(ContainerRequired) <==> TrimSpace(container) == ""
      ensures error == Some(DigestInvalid) <==>
                && TrimSpace(container) != "" && ValidRepository(TrimSpace(repository))
                && ValidTag(TrimSpace(tag)) && !ValidDigest(TrimSpace(digest))
      ensures forall k | |old(history)| <= k < |history| ::
                Repointed(old(files), history[k], TagLinkPath(TrimSpace(repository), TrimSpace(tag)), TrimSpace(digest))
      ensures |history| > |old(history)| ==>
                HoldsDigest(old(files), RevisionPath(TrimSpace(repository), TrimSpace(digest)), TrimSpace(digest))
      ensures error.None? ==>
                && HoldsDigest(files, TagLinkPath(TrimSpace(repository), TrimSpace(tag)), TrimSpace(digest))
                && |history| > |old(history)|
      ensures MoveRefusal(container, repository, tag, digest).None? ==>
                (error == Some(ImageAbsent) <==>
                 !(revisionRead && HoldsDigest(old(files), RevisionPath(TrimSpace(repository), TrimSpace(digest)),
                                               TrimSpace(digest))))
      ensures MoveRefusal(container, repository, tag, digest).Some? || error == Some(ImageAbsent) ==> previous == ""
      ensures previous != "" ==>
                ValidDigest(previous)
                && HoldsDigest(old(files), TagLinkPath(TrimSpace(repository), TrimSpace(tag)), previous)
      ensures MoveRefusal(container, repository, tag, digest).None? && error != Some(ImageAbsent) && linkRead ==>
                forall d | ValidDigest(d) ::
                  previous == d <==> HoldsDigest(old(files), TagLinkPath(TrimSpace(repository), TrimSpace(tag)), d)
    {
      previous := "";
      if TrimSpace(container) == "" {
        return "", Some(ContainerRequired), false, false;
      }
      var repository := TrimSpace(repository);
      if !ValidRepository(repository) {
        return "", Some(RepositoryInvalid), false, false;
      }
      var tag := TrimSpace(tag);
      if !ValidTag(tag) {
        return "", Some(TagInvalid), false, false;
      }
      var digest := TrimSpace(digest);
      if !ValidDigest(digest) {
        return "", Some(DigestInvalid), false, false;
      }
      var revision;
      revision, revisionRead := Read(RevisionPath(repository, digest));
      if revision != Some(digest) {
        return "", Some(ImageAbsent), revisionRead, false;
      }
      var linkPath := TagLinkPath(repository, tag);
      var link;
      link, linkRead := Read(linkPath);
      if link.Some? && ValidDigest(link.value) {
        previous := link.value;
      }
      var ok := AssignTag(repository, tag, digest);
      error := if ok then None else Some(CommandFailed);
    }

    /** Makes the directory, stages the link beside its place, and renames it. */
    method AssignTag(repository: string, tag: string, digest: string) returns (ok: bool)
      requires Recorded() && ValidRepository(repository) && ValidTag(tag) && ValidDigest(digest)
      modifies this
      ensures Recorded() && old(history) <= history
      ensures forall k | |old(history)| <= k < |history| ::
                Repointed(old(files), history[k], TagLinkPath(repository, tag), digest)
      ensures ok ==> |history| > |old(history)| && HoldsDigest(files, TagLinkPath(repository, tag), digest)
    {
      var linkPath := TagLinkPath(repository, tag);
      var directoryMade: bool := *;
      if !directoryMade {
        return false;
      }
      var stagingWritten: bool := *;
      if !stagingWritten {
        return false;
      }
      var stagedLink := linkPath + ".new";
      LinksAreTold(stagedLink);
      ok := Copy(digest, stagedLink);
      if !ok {
        return false;
      }
      ValidDigestIsTrimmed(digest);
      ok := Move(stagedLink, linkPath);
      if !ok {
        ghost var staged := files;
        var cleaned := Remove(stagedLink);
        StagedLinkAlone(repository, tag, staged, files);
      }
    }

    /** Copies the tree out and reads it; the copy may fail. */
    method ListRegistryContents(container: string) returns (r: Result<seq<RegistryContent>, StoreError>)
      ensures r.Ok? ==> TrimSpace(container) != "" && NoRepeats(r.value)
                        && forall row :: row in r.value <==> Listed(files, row)
    {
      if TrimSpace(container) == "" {
        return Err(ContainerRequired);
      }
      var copied: bool := *;
      if !copied {
        return Err(CommandFailed);
      }
      var entries := WalkTree(files);
      var rows := ReadRegistryContents(entries);
      if rows.Err? {
        return Err(ListingFailed(Some(rows.error)));
      }
      ListingMeaning(files, entries, rows.value);
      return Ok(rows.value);
    }

    /** Removes the current tags of a version one by one, then its revision. */
    method DeleteRegistryVersion(container: string, repository: string, digest: string)
        returns (error: Option<StoreError>)
      requires Recorded()
      modifies this
      ensures Recorded() && old(history) <= history
      ensures TrimSpace(container) == "" || !ValidRepository(repository) || !ValidDigest(digest) ==>
                error.Some? && history == old(history)
      ensures forall k | |old(history)| <= k < |history| :: Deleting(old(files), history[k], repository, digest)
      ensures error.None? ==> Deleted(files, repository, digest)
    {
      if TrimSpace(container) == "" {
        return Some(ContainerRequired);
      }
      if !ValidRepository(repository) {
        return Some(RepositoryInvalid);
      }
      if !ValidDigest(digest) {
        return Some(DigestInvalid);
      }
      var contents := ListRegistryContents(container);
      if contents.Err? {
        return Some(contents.error);
      }
      error := DeleteTags(container, repository, digest, contents.value);
      if error.Some? {
        return;
      }
      NothingNamesDigest(old(files), files, contents.value, repository, digest);
      ghost var untagged := files;
      var ok := Remove(RevisionDirectory(repository, digest));
      RevisionStep(old(files), untagged, files, repository, digest);
      error := if ok then None else Some(CommandFailed);
    }

    /** Removes the listed tags of the digest, one command each. */
    method DeleteTags(container: string, repository: string, digest: string, contents: seq<RegistryContent>)
        returns (error: Option<StoreError>)
      requires Recorded() && ValidRepository(repository)
      requires forall row | row in contents && Names(row, repository, digest) ::
                 TagAt(files, repository, row.tag) == Some(digest)
      modifies this
      ensures Recorded() && old(history) <= history
      ensures Untagging(old(files), files, repository, digest)
      ensures forall k | |old(history)| <= k < |history| :: Untagging(old(files), history[k], repository, digest)
      ensures error.None? ==> forall k | 0 <= k < |contents| && Names(contents[k], repository, digest) ::
                                TagLinkPath(repository, contents[k].tag) !in files
    {
      error := None;
      for i := 0 to |contents|
        invariant Recorded() && old(history) <= history
        invariant Untagging(old(files), files, repository, digest)
        invariant forall k | |old(history)| <= k < |history| :: Untagging(old(files), history[k], repository, digest)
        invariant error.None?
        invariant forall k | 0 <= k < i && Names(contents[k], repository, digest) ::
                    TagLinkPath(repository, contents[k].tag) !in files
      {
        var content := contents[i];
        if content.repository == repository && content.digest == digest && content.tag != "" {
          assert content in contents && Names(content, repository, digest);
          ghost var before := files;
          error := DeleteOneTag(container, repository, digest, content.tag, old(files));
          if error.Some? {
            return;
          }
          UntaggedStay(before, files, contents, i, repository, digest);
        }
      }
    }

    method DeleteOneTag(container: string, repository: string, digest: string, tag: string, ghost start: Tree)
        returns (error: Option<StoreError>)
      requires Recorded() && ValidRepository(repository) && TagAt(start, repository, tag) == Some(digest)
      requires Untagging(start, files, repository, digest)
      modifies this
      ensures Recorded() && old(history) <= history
      ensures Untagging(start, files, repository, digest) && Shrunk(old(files), files, TagLinkPath(repository, tag))
      ensures forall k | |old(history)| <= k < |history| :: Untagging(start, history[k], repository, digest)
      ensures error.None? ==> TagLinkPath(repository, tag) !in files
    {
      NamesAreTrimmed(repository, tag);
      error := DeleteRegistryTag(container, repository, tag);
      forall k | |old(history)| <= k < |history| ensures Untagging(start, history[k], repository, digest) {
        UntaggingStep(start, old(files), history[k], repository, tag, digest);
      }
      assert |history| > |old(history)| ==> files == history[|history| - 1];
      assert |history| == |old(history)| ==> history == old(history) && files == old(files);
    }
  }

  method WalkTree(tree: Tree) returns (entries: seq<Entry>)
    ensures IsWalk(tree, entries)
  {
    entries := [];
    var pending := tree.Keys;
    while pending != {}
      invariant pending <= tree.Keys
      invariant forall i, j | 0 <= i < j < |entries| :: entries[i].path != entries[j].path
      invariant forall e | e in entries :: e.path in tree.Keys - pending && tree[e.path] == e.file
      invariant forall path | path in tree.Keys - pending :: Entry(path, tree[path]) in entries
    {
      var path :| path in pending;
      entries := entries + [Entry(path, tree[path])];
      pending := pending - {path};
    }
  }

  ghost predicate Names(row: RegistryContent, repository: string, digest: string) {
    row.repository == repository && row.digest == digest && row.tag != ""
  }

  /** The path is the link of a tag of the repository that names the digest. */
  ghost predicate LinkNames(tree: Tree, path: string, repository: string, digest: string) {
    && SplitLinkPath(path).Some? && SplitLinkPath(path).value.0 == repository
    && TagAt(tree, repository, SplitLinkPath(path).value.1) == Some(digest)
  }

  ghost predicate NoTagNames(tree: Tree, repository: string, digest: string) {
    forall tag :: TagAt(tree, repository, tag) != Some(digest)
  }

  /** Only links of tags that named the digest are gone. */
  ghost predicate Untagging(before: Tree, after: Tree, repository: string, digest: string) {
    forall path | IsLink(path) ::
      || FileAt(after, path) == FileAt(before, path)
      || (path !in after && LinkNames(before, path, repository, digest))
  }

  /** Only links of tags that named the digest are gone, and its revision only
      once no tag names it any more. */
  ghost predicate Deleting(before: Tree, after: Tree, repository: string, digest: string) {
    forall path | IsLink(path) ::
      || FileAt(after, path) == FileAt(before, path)
      || (path !in after && LinkNames(before, path, repository, digest))
      || (path !in after && path == RevisionPath(repository, digest) && NoTagNames(after, repository, digest))
  }

  ghost predicate Deleted(tree: Tree, repository: string, digest: string) {
    RevisionPath(repository, digest) !in tree && NoTagNames(tree, repository, digest)
  }

  lemma UntaggingStep(before: Tree, middle: Tree, after: Tree, repository: string, tag: string, digest: string)
    requires Untagging(before, middle, repository, digest) && TagAt(before, repository, tag) == Some(digest)
    requires Shrunk(middle, after, TagLinkPath(repository, tag))
    ensures Untagging(before, after, repository, digest)
  {
    TagLinkRoundTrip(repository, tag);
  }

  lemma UntaggedStay(before: Tree, after: Tree, rows: seq<RegistryContent>, i: nat, repository: string, digest: string)
    requires i < |rows| && ValidRepository(repository)
    requires Shrunk(before, after, TagLinkPath(repository, rows[i].tag))
    requires forall k | 0 <= k < i && Names(rows[k], repository, digest) ::
               ValidTag(rows[k].tag) && TagLinkPath(repository, rows[k].tag) !in before
    ensures forall k | 0 <= k < i && Names(rows[k], repository, digest) ::
              TagLinkPath(repository, rows[k].tag) !in after
  {
    forall k | 0 <= k < i && Names(rows[k], repository, digest)
      ensures TagLinkPath(repository, rows[k].tag) !in after
    {
      TagLinkIsLink(repository, rows[k].tag);
    }
  }

  lemma NothingNamesDigest(before: Tree, after: Tree, rows: seq<RegistryContent>, repository: string, digest: string)
    requires ValidRepository(repository) && Untagging(before, after, repository, digest)
    requires forall row :: row in rows <==> Listed(before, row)
    requires forall k | 0 <= k < |rows| && Names(rows[k], repository, digest) ::
               TagLinkPath(repository, rows[k].tag) !in after
    ensures NoTagNames(after, repository, digest)
  {
    forall tag ensures TagAt(after, repository, tag) != Some(digest) {
      if TagAt(after, repository, tag) == Some(digest) {
        TagLinkIsLink(repository, tag);
        var path := TagLinkPath(repository, tag);
        var row := RegistryContent(repository, tag, digest, before[path].modTime,
                                   RevisionTime(before, repository, digest));
        assert Listed(before, row);
        var k :| 0 <= k < |rows| && rows[k] == row;
        assert false;
      }
    }
  }

  lemma RevisionStep(before: Tree, untagged: Tree, after: Tree, repository: string, digest: string)
    requires ValidRepository(repository) && ValidDigest(digest)
    requires Untagging(before, untagged, repository, digest) && NoTagNames(untagged, repository, digest)
    requires RemovedUnder(untagged, after, RevisionDirectory(repository, digest))
    ensures Deleting(before, after, repository, digest) && NoTagNames(after, repository, digest)
    ensures (forall path | path in after :: !Under(RevisionDirectory(repository, digest), path)) ==>
              Deleted(after, repository, digest)
  {
    RemovingRevisionDirectory(untagged, after, repository, digest);
    RevisionRoundTrip(repository, digest);
    LinksAreTold(RevisionPath(repository, digest));
    forall tag ensures TagAt(after, repository, tag) != Some(digest) {
      if ValidTag(tag) {
        TagLinkIsLink(repository, tag);
        TagLinkRoundTrip(repository, tag);
        SameFileSameTag(untagged, after, repository, tag);
      }
    }
  }

  lemma {:induction false} CharactersOfParts(s: string)
    ensures forall c | c in s :: c == '/' || exists part :: part in Split(s) && c in part
  {
    if s != "" {
      CharactersOfParts(s[1..]);
      var rest := Split(s[1..]);
      assert s == [s[0]] + s[1..];
      forall c | c in s ensures c == '/' || exists part :: part in Split(s) && c in part {
        if c == s[0] && c != '/' {
          assert [s[0]] + rest[0] in Split(s);
        } else if c in s[1..] && c != '/' {
          var part :| part in rest && c in part;
          if part == rest[0] && s[0] != '/' {
            assert [s[0]] + rest[0] in Split(s) && c in [s[0]] + rest[0];
          } else {
            assert part in Split(s);
          }
        }
      }
    }
  }

  lemma NamesAreTrimmed(repository: string, tag: string)
    requires ValidRepository(repository) && ValidTag(tag)
    ensures TrimSpace(repository) == repository && TrimSpace(tag) == tag
  {
    CharactersOfParts(repository);
    assert repository[0] in repository && repository[|repository| - 1] in repository;
  }

  function DeleteTagRefusal(container: string, repository: string, tag: string): Option<StoreError> {
    if TrimSpace(container) == "" then Some(ContainerRequired)
    else if !ValidRepository(TrimSpace(repository)) then Some(RepositoryInvalid)
    else if !ValidTag(TrimSpace(tag)) then Some(TagInvalid)
    else None
  }

  function MoveRefusal(container: string, repository: string, tag: string, digest: string): Option<StoreError> {
    if DeleteTagRefusal(container, repository, tag).Some? then DeleteTagRefusal(container, repository, tag)
    else if !ValidDigest(TrimSpace(digest)) then Some(DigestInvalid)
    else None
  }

  /** At most the link at the path is gone. */
  ghost predicate Shrunk(before: Tree, after: Tree, path: string) {
    && SameLinksBut(before, after, path)
    && (path in after ==> FileAt(after, path) == FileAt(before, path))
  }

  ghost predicate HoldsDigest(tree: Tree, path: string, digest: string) {
    path in tree && TrimSpace(tree[path].content) == digest
  }

  /** At most the link at the path changed, and then it holds the digest. */
  ghost predicate Repointed(before: Tree, after: Tree, path: string, digest: string) {
    && SameLinksBut(before, after, path)
    && (|| FileAt(after, path) == FileAt(before, path)
        || (path in after && after[path].regular && after[path].content == digest))
  }

  lemma ValidDigestIsTrimmed(digest: string)
    requires ValidDigest(digest)
    ensures TrimSpace(digest) == digest && |digest| == 71
  {
    assert digest[..7][0] == 's';
    assert IsHexDigit(digest[7..][63]);
  }

  lemma StagedIsNoLink(repository: string, tag: string, path: string)
    requires ValidRepository(repository) && ValidTag(tag) && Under(TagLinkPath(repository, tag) + ".new", path)
    ensures !IsLink(path)
  {
    PlainComponent(tag);
    StagedLinkComponents(repository, tag);
    var rest := SplitBelow(TagLinkPath(repository, tag) + ".new", path);
    var tail := ["tags", tag, "current", "link.new"] + rest;
    assert Split(path) == Split(repository) + ["_manifests"] + tail;
    assert tail[3] == "link.new" && tail[0] == "tags";
    if SplitLinkPath(path).Some? {
      LinkTail(repository, tail, path);
    } else if SplitRevisionPath(path).Some? {
      RevisionTail(repository, tail, path);
    }
  }

  /** Removing the staged file removes nothing a listing reads. */
  lemma StagedLinkAlone(repository: string, tag: string, before: Tree, after: Tree)
    requires ValidRepository(repository) && ValidTag(tag)
    requires RemovedUnder(before, after, TagLinkPath(repository, tag) + ".new")
    ensures SameLinks(before, after)
  {
    forall path | IsLink(path) ensures FileAt(after, path) == FileAt(before, path) {
      if Under(TagLinkPath(repository, tag) + ".new", path) {
        StagedIsNoLink(repository, tag, path);
      }
    }
  }

  /** Seen from a listing: every other tag and every revision is as before, and
      the tag is at its old digest or at the new one. */
  lemma RepointedMeaning(before: Tree, after: Tree, repository: string, tag: string, digest: string)
    requires ValidRepository(repository) && ValidTag(tag) && ValidDigest(digest)
    requires Repointed(before, after, TagLinkPath(repository, tag), digest)
    ensures TagAt(after, repository, tag) == TagAt(before, repository, tag)
            || TagAt(after, repository, tag) == Some(digest)
    ensures forall r, t | (r, t) != (repository, tag) :: TagAt(after, r, t) == TagAt(before, r, t)
    ensures forall r, d :: RevisionAt(after, r, d) == RevisionAt(before, r, d)
    ensures forall row: RegistryContent | row.tag != "" && (row.repository, row.tag) != (repository, tag) ::
              Listed(after, row) <==> Listed(before, row)
  {
    ValidDigestIsTrimmed(digest);
    forall r, t | (r, t) != (repository, tag)
      ensures TagAt(after, r, t) == TagAt(before, r, t)
      ensures ValidRepository(r) && ValidTag(t) ==>
                FileAt(after, TagLinkPath(r, t)) == FileAt(before, TagLinkPath(r, t))
    {
      if ValidRepository(r) && ValidTag(t) {
        TagLinkRoundTrip(r, t);
        TagLinkRoundTrip(repository, tag);
        TagLinkIsLink(r, t);
      }
    }
    forall r, d ensures RevisionAt(after, r, d) == RevisionAt(before, r, d) {
      if ValidRepository(r) && ValidDigest(d) {
        RevisionIsLink(r, d);
        RevisionRoundTrip(r, d);
        TagLinkRoundTrip(repository, tag);
        LinksAreTold(TagLinkPath(repository, tag));
      }
    }
  }
}
