/** How the write paths and the read paths fit together: what `tag_file`
    creates, `query` and the `.names` lookup find; what `file_tag` records,
    `readdir` lists; and a path `/tag/name` of a tagged file resolves, in
    `fuse_path_to_real` and `getattr`, to the link `tag_file` made. */
module Agreement {
  import opened Paths
  import opened Outcomes
  import opened Repository
  import opened Sql
  import opened TagUtils
  import opened Tagging
  import opened FuseTagger

  /** The FUSE path `/tag/name`. */
  function TagPath(tag: Name, name: Name): string {
    Join(Join("", tag), name)
  }

  /** The FUSE path `/tag` names exactly the one tag. */
  lemma TagDirSegments(tag: Name)
    requires ValidName(tag)
    ensures Split(Join("", tag)) == ["", tag]
    ensures Segments(Join("", tag)) == [tag]
  {
    SplitAppend("", tag);
    SegmentsOfJoin("", tag);
    assert Split("") == [""];
    assert NonEmpty([""]) == [];
  }

  lemma TagPathParts(tag: Name, name: Name)
    requires ValidName(tag) && ValidName(name)
    ensures Split(TagPath(tag, name)) == ["", tag, name]
    ensures Basename(TagPath(tag, name)) == name
    ensures Segments(TagPath(tag, name)) == [tag, name]
  {
    TagDirSegments(tag);
    SplitAppend(Join("", tag), name);
    SegmentsOfJoin(Join("", tag), name);
    BasenameOfJoin(Split(TagPath(tag, name)), TagPath(tag, name));
  }

  /** A link under a tag is found by the query of that tag alone. */
  lemma LinkIsFound(repo: Repo, t: Name, p: Name, f: Name)
    requires Entry(repo, t, p, f).Some?
    ensures IsMatch(repo, [t], f)
  {
    SingleTagQuery(repo, t, f);
    assert HasShard(repo, t, p) && f in Links(repo, t, p);
  }

  /** After a successful `tag_file`, the query of that single tag finds the
      file's link. */
  lemma TaggedFileIsFound(repo: Repo, src: Source, tag: Name, hashing: Hashing)
    requires ValidName(tag)
    requires TagFile(repo, src, tag, hashing).raised.None?
    ensures IsMatch(TagFile(repo, src, tag, hashing).repo, [tag], HashedName(src, hashing))
  {
    var l := TagLink(src, tag, hashing);
    LinkIsFound(TagFile(repo, src, tag, hashing).repo, l.0, l.1, l.2);
  }

  /** A `.names` link of a hashed name is what the name-keyed lookup
      looks for: its display part is the name and its head the hash. */
  lemma NamesLinkIsResolvable(repo: Repo, h: Digest, name: Name, key: Name)
    requires Entry(repo, NamesDir, key, h + name).Some?
    ensures HasShard(repo, NamesDir, key)
    ensures exists n | n in Links(repo, NamesDir, key) :: DisplayPart(n) == name && HashHead(n) == h
  {
    HashedNameRoundTrip(h, name);
    assert h + name in Links(repo, NamesDir, key);
  }

  /** After a successful `tag_file`, the `.names` shard of the display name
      holds a link whose display part is that name and whose hash head is
      the file's hash, so the name-keyed lookup does not report
      "File not found". */
  lemma TaggedNameIsResolvable(repo: Repo, src: Source, tag: Name, hashing: Hashing)
    requires ValidName(tag)
    requires TagFile(repo, src, tag, hashing).raised.None?
    ensures var after := TagFile(repo, src, tag, hashing).repo;
      var key := ShardKey(hashing.ofText(Basename(src.path)));
      && NameResolves(after, key, Basename(src.path))
      && exists n | n in Links(after, NamesDir, key) ::
           DisplayPart(n) == Basename(src.path) && HashHead(n) == FileHash(src, hashing)
  {
    var n := NamesLink(src, hashing);
    NamesLinkIsResolvable(TagFile(repo, src, tag, hashing).repo, FileHash(src, hashing), Basename(src.path), n.1);
  }

  /** A change confined to two links, which removes and replaces nothing,
      keeps every query match. */
  lemma ChangedOnlyKeepsMatches(before: Repo, after: Repo, a: (Name, Name, Name), b: (Name, Name, Name),
                                tags: seq<Name>, f: Name)
    requires ChangedOnly(before, after, a, b)
    requires IsMatch(before, tags, f)
    ensures IsMatch(after, tags, f)
  {
    var p :| MatchesUnder(before, tags, p, f);
    ChangedOnlyKeepsLink(before, after, a, b, (tags[0], p, f));
    forall i | 0 <= i < |tags|
      ensures HasShard(after, tags[i], p) && HashHead(f) in Heads(Links(after, tags[i], p))
    {
      var m :| m in Links(before, tags[i], p) && HashHead(m) == HashHead(f);
      ChangedOnlyKeepsLink(before, after, a, b, (tags[i], p, m));
      assert m in Links(after, tags[i], p);
    }
    assert MatchesUnder(after, tags, p, f);
  }

  /** Such a change keeps every existing link, and so its shard. */
  lemma ChangedOnlyKeepsLink(before: Repo, after: Repo, a: (Name, Name, Name), b: (Name, Name, Name),
                             x: (Name, Name, Name))
    requires ChangedOnly(before, after, a, b)
    requires Entry(before, x.0, x.1, x.2).Some?
    ensures Entry(after, x.0, x.1, x.2) == Entry(before, x.0, x.1, x.2)
    ensures HasShard(after, x.0, x.1)
  {
    if x == a {
    } else if x == b {
    }
  }

  /** Tagging never hides a file from a query: every link matching a query
      before the call still matches after it, whether or not it raised. */
  lemma TaggingKeepsMatches(repo: Repo, src: Source, tag: Name, hashing: Hashing,
                            tags: seq<Name>, f: Name)
    requires ValidName(tag)
    requires IsMatch(repo, tags, f)
    ensures IsMatch(TagFile(repo, src, tag, hashing).repo, tags, f)
    ensures IsMatch(TagFileAsWritten(repo, src, tag, hashing).repo, tags, f)
  {
    ChangedOnlyKeepsMatches(repo, TagFile(repo, src, tag, hashing).repo,
                            TagLink(src, tag, hashing), NamesLink(src, hashing), tags, f);
    AsWrittenReachesSameState(repo, src, tag, hashing);
  }

  /** `/tag/name` resolves to the link of `name`'s first recorded hash
      under `tag`. */
  lemma TagPathToReal(t: Tagger, tag: Name, name: Name, h: string)
    requires ValidName(tag) && ValidName(name)
    requires FileGetHash(t.db, name) == Some(h)
    ensures FusePathToReal(t, TagPath(tag, name)) == Ok(Some(LinkPath(t.repo.root, tag, h, name)))
  {
    TagPathParts(tag, name);
  }

  /** `getattr("/tag/name")` for a recorded name that is not a tag stats
      that link. */
  lemma TagPathAttrs(t: Tagger, lstat: string -> Option<StatResult>, tag: Name, name: Name, h: string)
    requires ValidName(tag) && ValidName(name)
    requires NamesDir in t.repo.dirs
    requires !(name in t.repo.dirs && name != NamesDir)
    requires FileGetHash(t.db, name) == Some(h)
    ensures Getattr(t, lstat, TagPath(tag, name)) == StatAttrs(lstat, LinkPath(t.repo.root, tag, h, name))
  {
    TagPathParts(tag, name);
    TagPathToReal(t, tag, name, h);
    assert TagPath(tag, name) != "/" by {
      assert |TagPath(tag, name)| > 1;
    }
  }

  /** A file whose display name resolves in the relational index to the
      hash `tag_file` used is reached through `/tag/name`: the physical
      path is the link `tag_file` created, and unless the name is itself a
      tag, `getattr` stats that link. */
  lemma TaggedFileResolves(repo: Repo, src: Source, tag: Name, hashing: Hashing,
                           db: Db, lstat: string -> Option<StatResult>)
    requires ValidName(tag) && ValidName(Basename(src.path))
    requires TagFile(repo, src, tag, hashing).raised.None?
    requires FileGetHash(db, Basename(src.path)) == Some(FileHash(src, hashing))
    ensures var after := TagFile(repo, src, tag, hashing).repo;
      var h := FileHash(src, hashing);
      var name := Basename(src.path);
      && Entry(after, tag, ShardKey(h), h + name) == Some(src.inode)
      && FusePathToReal(Tagger(after, db), TagPath(tag, name)) == Ok(Some(LinkPath(after.root, tag, h, name)))
    ensures var after := TagFile(repo, src, tag, hashing).repo;
      var name := Basename(src.path);
      !(name in after.dirs && name != NamesDir) ==>
        Getattr(Tagger(after, db), lstat, TagPath(tag, name))
          == StatAttrs(lstat, LinkPath(after.root, tag, FileHash(src, hashing), name))
  {
    var after := TagFile(repo, src, tag, hashing).repo;
    var name := Basename(src.path);
    var h := FileHash(src, hashing);
    var l := TagLink(src, tag, hashing);
    var n := NamesLink(src, hashing);
    assert Entry(after, l.0, l.1, l.2) == Some(src.inode);
    assert Entry(after, n.0, n.1, n.2).Some?;
    assert NamesDir in after.dirs;
    TagPathToReal(Tagger(after, db), tag, name, h);
    if !(name in after.dirs && name != NamesDir) {
      TagPathAttrs(Tagger(after, db), lstat, tag, name, h);
    }
  }

  /** After `file_tag(name, h, tag)` on a valid index, listing `/tag` shows
      the display name the index keeps for `h`, which is `name` unless the
      hash was already recorded. */
  lemma TaggedFileIsListed(t: Tagger, name: string, h: string, tag: Name)
    requires Valid(t.db)
    requires NamesDir in t.repo.dirs
    requires ValidName(tag)
    ensures var db := FileTag(t.db, name, h, tag).value;
      && NameOfHash(db, h).Some?
      && NameOfHash(db, h).value in Readdir(Tagger(t.repo, db), Join("", tag)).value.files
      && (!Sql.FileExists(t.db, h) ==> NameOfHash(db, h) == Some(name))
  {
    var db := FileTag(t.db, name, h, tag).value;
    FileTagKeepsValid(t.db, name, h, tag);
    var k := FileTagCarries(t.db, name, h, tag);
    TagDirSegments(tag);
    ReaddirFilesExact(Tagger(t.repo, db), Join("", tag), db.files[k].name);
  }
}
