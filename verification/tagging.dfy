/** The tagging write path (tagger/main.py `tag_file`) as a transformer
    of the repository directory state. An exception can interrupt it
    after some directories or links were already created, so its outcome
    is the state reached together with the exception raised, if any. */
module Tagging {
  import opened Paths
  import opened Outcomes
  import opened Repository

  /** The file being tagged: its path, the inode a hard link to it shares,
      and its bytes. */
  datatype Source = Source(path: string, inode: Inode, content: seq<bv8>)

  /** SHA-1 as uninterpreted functions: `hash_file_sha1` of the content
      and `hash_string` of a display name. */
  datatype Hashing = Hashing(ofContent: seq<bv8> -> Digest, ofText: string -> Digest)

  /** The state after the call and the exception it raised, if any. */
  datatype TagOutcome = TagOutcome(repo: Repo, raised: Option<Error>)

  /** `os.makedirs` can create `repository/top/...` unless `top` is a
      plain file. */
  predicate CanMakeDirs(repo: Repo, top: Name) {
    top in repo.dirs || top !in repo.plain
  }

  /** Links and shard directories of `after` are those of `before` except
      at the links `a` and `b` and their shard directories; nothing is
      removed, no existing link is replaced, and the root's plain files
      are untouched. */
  ghost predicate ChangedOnly(before: Repo, after: Repo,
                              a: (Name, Name, Name), b: (Name, Name, Name))
  {
    && after.root == before.root
    && after.plain == before.plain
    && before.dirs <= after.dirs
    && after.dirs <= before.dirs + {a.0, b.0}
    && (forall t, p | HasShard(before, t, p) :: HasShard(after, t, p))
    && (forall t, p | HasShard(after, t, p) && !HasShard(before, t, p) ::
          (t, p) == (a.0, a.1) || (t, p) == (b.0, b.1))
    && (forall t, p, n | (t, p, n) != a && (t, p, n) != b ::
          Entry(after, t, p, n) == Entry(before, t, p, n))
    && (Entry(before, a.0, a.1, a.2).Some? ==> Entry(after, a.0, a.1, a.2) == Entry(before, a.0, a.1, a.2))
    && (Entry(before, b.0, b.1, b.2).Some? ==> Entry(after, b.0, b.1, b.2) == Entry(before, b.0, b.1, b.2))
  }

  lemma ChangedOnlyTrans(r0: Repo, r1: Repo, r2: Repo, a: (Name, Name, Name), b: (Name, Name, Name))
    requires ChangedOnly(r0, r1, a, b) && ChangedOnly(r1, r2, a, b)
    ensures ChangedOnly(r0, r2, a, b)
  {
  }

  lemma ChangedOnlyRefl(r: Repo, a: (Name, Name, Name), b: (Name, Name, Name))
    ensures ChangedOnly(r, r, a, b)
  {
  }

  /** `if not path.exists(location): os.makedirs(location)` for the shard
      directory `repository/top/prefix`: existing directories and their
      links are left alone. */
  function EnsureShard(repo: Repo, top: Name, prefix: Name): (r: Result<Repo>)
    ensures r.Ok? <==> CanMakeDirs(repo, top)
    ensures r.Err? ==> r.error == NotADirectory(Join(Join(repo.root, top), prefix))
    ensures r.Ok? ==> HasShard(r.value, top, prefix)
    ensures r.Ok? ==> HasShard(repo, top, prefix) ==> r.value == repo
    ensures r.Ok? ==> r.value.root == repo.root && r.value.plain == repo.plain
    ensures r.Ok? ==> r.value.dirs == repo.dirs + {top}
  {
    if HasShard(repo, top, prefix) then
      Ok(repo)
    else if !CanMakeDirs(repo, top) then
      Err(NotADirectory(Join(Join(repo.root, top), prefix)))
    else
      Ok(repo.(dirs := repo.dirs + {top}, shards := repo.shards + {(top, prefix)}))
  }

  /** Creating a shard directory adds that directory and nothing else:
      every other shard and every link stay as they were. */
  lemma EnsureShardFrame(repo: Repo, top: Name, prefix: Name)
    requires CanMakeDirs(repo, top)
    ensures var after := EnsureShard(repo, top, prefix).value;
      && (forall t, p :: HasShard(after, t, p) <==> HasShard(repo, t, p) || (t, p) == (top, prefix))
      && (forall t, p, n :: Entry(after, t, p, n) == Entry(repo, t, p, n))
  {
  }

  /** Creating the shard directory of one of the links `a` and `b` changes
      only what `ChangedOnly` allows. */
  lemma EnsureShardChangedOnly(repo: Repo, top: Name, prefix: Name,
                               a: (Name, Name, Name), b: (Name, Name, Name))
    requires CanMakeDirs(repo, top)
    requires (top, prefix) == (a.0, a.1) || (top, prefix) == (b.0, b.1)
    ensures ChangedOnly(repo, EnsureShard(repo, top, prefix).value, a, b)
  {
    EnsureShardFrame(repo, top, prefix);
  }

  /** `os.link(source, repository/top/prefix/name)`: fails when the
      directory is missing or the destination already exists. */
  function Link(repo: Repo, top: Name, prefix: Name, name: Name, inode: Inode): (r: Result<Repo>)
    ensures r.Ok? <==> HasShard(repo, top, prefix) && Entry(repo, top, prefix, name).None?
    ensures HasShard(repo, top, prefix) && r.Err? ==>
      r.error == FileExists(Join(Join(Join(repo.root, top), prefix), name))
    ensures r.Ok? ==> Entry(r.value, top, prefix, name) == Some(inode)
    ensures r.Ok? ==> r.value.root == repo.root && r.value.plain == repo.plain
    ensures r.Ok? ==> r.value.dirs == repo.dirs
  {
    var path := Join(Join(Join(repo.root, top), prefix), name);
    if !HasShard(repo, top, prefix) then
      Err(if top in repo.dirs then FileNotFound(path) else TopError(repo, top, path))
    else if (top, prefix, name) in repo.links then
      Err(FileExists(path))
    else
      Ok(repo.(links := repo.links[(top, prefix, name) := inode]))
  }

  /** A new link adds that link and nothing else: the shard directories and
      every other link stay as they were. */
  lemma LinkFrame(repo: Repo, top: Name, prefix: Name, name: Name, inode: Inode)
    requires Link(repo, top, prefix, name, inode).Ok?
    ensures var after := Link(repo, top, prefix, name, inode).value;
      && (forall t, p :: HasShard(after, t, p) <==> HasShard(repo, t, p))
      && (forall t, p, n | (t, p, n) != (top, prefix, name) :: Entry(after, t, p, n) == Entry(repo, t, p, n))
  {
  }

  /** Making one of the links `a` and `b` changes only what `ChangedOnly`
      allows. */
  lemma LinkChangedOnly(repo: Repo, top: Name, prefix: Name, name: Name, inode: Inode,
                        a: (Name, Name, Name), b: (Name, Name, Name))
    requires Link(repo, top, prefix, name, inode).Ok?
    requires (top, prefix, name) == a || (top, prefix, name) == b
    ensures ChangedOnly(repo, Link(repo, top, prefix, name, inode).value, a, b)
  {
    LinkFrame(repo, top, prefix, name, inode);
  }

  /** The link at `x` is the same after creating a shard directory. */
  lemma EnsureShardKeeps(repo: Repo, top: Name, prefix: Name, x: (Name, Name, Name))
    requires CanMakeDirs(repo, top)
    ensures Entry(EnsureShard(repo, top, prefix).value, x.0, x.1, x.2) == Entry(repo, x.0, x.1, x.2)
  {
    EnsureShardFrame(repo, top, prefix);
  }

  /** The link at `x` is the same after making a link elsewhere. */
  lemma LinkKeeps(repo: Repo, top: Name, prefix: Name, name: Name, inode: Inode, x: (Name, Name, Name))
    requires Link(repo, top, prefix, name, inode).Ok?
    requires x != (top, prefix, name)
    ensures Entry(Link(repo, top, prefix, name, inode).value, x.0, x.1, x.2) == Entry(repo, x.0, x.1, x.2)
  {
    LinkFrame(repo, top, prefix, name, inode);
  }

  /** The content hash of the source. */
  function FileHash(src: Source, hashing: Hashing): Digest {
    hashing.ofContent(src.content)
  }

  /** `hash + basename`: the link name of the source in every directory. */
  function HashedName(src: Source, hashing: Hashing): Name {
    FileHash(src, hashing) + Basename(src.path)
  }

  /** Where the source is linked under `tag`. */
  function TagLink(src: Source, tag: Name, hashing: Hashing): (Name, Name, Name) {
    (tag, ShardKey(FileHash(src, hashing)), HashedName(src, hashing))
  }

  /** Where the source is linked in the name-keyed reverse index. */
  function NamesLink(src: Source, hashing: Hashing): (Name, Name, Name) {
    (NamesDir, ShardKey(hashing.ofText(Basename(src.path))), HashedName(src, hashing))
  }

  /** Lines 17-38 of `tag_file`: create the tag's shard directory if absent,
      link the source there, create the `.names` shard if absent. Returns the
      state reached and, when no exception was raised, leaves the final
      `.names` link to the caller. */
  function PlaceAndPrepare(repo: Repo, src: Source, tag: Name, hashing: Hashing): (out: TagOutcome)
    requires ValidName(tag)
    ensures ChangedOnly(repo, out.repo, TagLink(src, tag, hashing), NamesLink(src, hashing))
    ensures out.raised.None? <==>
      CanMakeDirs(repo, tag) && CanMakeDirs(repo, NamesDir)
      && Entry(repo, TagLink(src, tag, hashing).0, TagLink(src, tag, hashing).1, TagLink(src, tag, hashing).2).None?
    ensures out.raised.None? ==>
      var l := TagLink(src, tag, hashing);
      var n := NamesLink(src, hashing);
      Entry(out.repo, l.0, l.1, l.2) == Some(src.inode) && HasShard(out.repo, n.0, n.1)
      && (l != n ==> Entry(out.repo, n.0, n.1, n.2) == Entry(repo, n.0, n.1, n.2))
    ensures var l := TagLink(src, tag, hashing);
      CanMakeDirs(repo, tag) && Entry(repo, l.0, l.1, l.2).Some? ==>
        out.raised == Some(FileExists(LinkPath(repo.root, tag, FileHash(src, hashing), Basename(src.path))))
  {
    var l := TagLink(src, tag, hashing);
    var n := NamesLink(src, hashing);
    match EnsureShard(repo, l.0, l.1)
    case Err(e) =>
      ChangedOnlyRefl(repo, l, n);
      TagOutcome(repo, Some(e))
    case Ok(r1) =>
      EnsureShardChangedOnly(repo, l.0, l.1, l, n);
      EnsureShardKeeps(repo, l.0, l.1, l);
      EnsureShardKeeps(repo, l.0, l.1, n);
      match Link(r1, l.0, l.1, l.2, src.inode)
      case Err(e) => TagOutcome(r1, Some(e))
      case Ok(r2) =>
        LinkChangedOnly(r1, l.0, l.1, l.2, src.inode, l, n);
        ChangedOnlyTrans(repo, r1, r2, l, n);
        assert CanMakeDirs(r2, NamesDir) <==> CanMakeDirs(repo, NamesDir);
        match EnsureShard(r2, n.0, n.1)
        case Err(e) => TagOutcome(r2, Some(e))
        case Ok(r3) =>
          EnsureShardChangedOnly(r2, n.0, n.1, l, n);
          ChangedOnlyTrans(repo, r2, r3, l, n);
          EnsureShardKeeps(r2, n.0, n.1, l);
          EnsureShardKeeps(r2, n.0, n.1, n);
          if l != n then
            LinkKeeps(r1, l.0, l.1, l.2, src.inode, n);
            TagOutcome(r3, None)
          else
            TagOutcome(r3, None)
  }

  /** `tag_file` as written: the `except os.FileExistsError` clause is
      evaluated only once the `.names` link has raised, and since `os` has
      no attribute `FileExistsError`, that evaluation raises
      `AttributeError` in place of swallowing the error. */
  function TagFileAsWritten(repo: Repo, src: Source, tag: Name, hashing: Hashing): (out: TagOutcome)
    requires ValidName(tag)
    ensures ChangedOnly(repo, out.repo, TagLink(src, tag, hashing), NamesLink(src, hashing))
    ensures var l := TagLink(src, tag, hashing);
      var n := NamesLink(src, hashing);
      out.raised.None? <==>
        CanMakeDirs(repo, tag) && CanMakeDirs(repo, NamesDir)
        && Entry(repo, l.0, l.1, l.2).None? && l != n && Entry(repo, n.0, n.1, n.2).None?
    ensures var l := TagLink(src, tag, hashing);
      var n := NamesLink(src, hashing);
      CanMakeDirs(repo, tag) && CanMakeDirs(repo, NamesDir) && Entry(repo, l.0, l.1, l.2).None?
      && (l == n || Entry(repo, n.0, n.1, n.2).Some?) ==>
        out.raised == Some(AttributeError("FileExistsError"))
        && Entry(out.repo, l.0, l.1, l.2) == Some(src.inode)
  {
    var placed := PlaceAndPrepare(repo, src, tag, hashing);
    if placed.raised.Some? then
      placed
    else
      var l := TagLink(src, tag, hashing);
      var n := NamesLink(src, hashing);
      match Link(placed.repo, n.0, n.1, n.2, src.inode)
      case Ok(r) =>
        LinkChangedOnly(placed.repo, n.0, n.1, n.2, src.inode, l, n);
        ChangedOnlyTrans(repo, placed.repo, r, l, n);
        TagOutcome(r, None)
      case Err(_) => TagOutcome(placed.repo, Some(AttributeError("FileExistsError")))
  }

  /** `tag_file` with the evidently intended `except FileExistsError`: an
      existing `.names` link is accepted. */
  function TagFile(repo: Repo, src: Source, tag: Name, hashing: Hashing): (out: TagOutcome)
    requires ValidName(tag)
    ensures ChangedOnly(repo, out.repo, TagLink(src, tag, hashing), NamesLink(src, hashing))
    ensures var l := TagLink(src, tag, hashing);
      out.raised.None? <==>
        CanMakeDirs(repo, tag) && CanMakeDirs(repo, NamesDir) && Entry(repo, l.0, l.1, l.2).None?
    ensures var l := TagLink(src, tag, hashing);
      CanMakeDirs(repo, tag) && Entry(repo, l.0, l.1, l.2).Some? ==>
        out.raised == Some(FileExists(LinkPath(repo.root, tag, FileHash(src, hashing), Basename(src.path))))
    ensures out.raised.None? ==>
      var l := TagLink(src, tag, hashing);
      var n := NamesLink(src, hashing);
      && Entry(out.repo, l.0, l.1, l.2) == Some(src.inode)
      && Entry(out.repo, n.0, n.1, n.2).Some?
      && (l != n && Entry(repo, n.0, n.1, n.2).None? ==> Entry(out.repo, n.0, n.1, n.2) == Some(src.inode))
  {
    var placed := PlaceAndPrepare(repo, src, tag, hashing);
    if placed.raised.Some? then
      placed
    else
      var l := TagLink(src, tag, hashing);
      var n := NamesLink(src, hashing);
      match Link(placed.repo, n.0, n.1, n.2, src.inode)
      case Ok(r) =>
        LinkChangedOnly(placed.repo, n.0, n.1, n.2, src.inode, l, n);
        ChangedOnlyTrans(repo, placed.repo, r, l, n);
        LinkKeeps(placed.repo, n.0, n.1, n.2, src.inode, l);
        TagOutcome(r, None)
      case Err(e) =>
        assert HasShard(placed.repo, n.0, n.1);
        TagOutcome(placed.repo, if e.FileExists? then None else Some(e))
  }

  /** The code as written and the corrected `tag_file` reach the same
      state and raise the same exception, except that the code as written
      raises `AttributeError` where the corrected clause accepts an
      existing `.names` link. So every statement about the state the
      corrected call reaches holds of the code as written too. */
  lemma AsWrittenReachesSameState(repo: Repo, src: Source, tag: Name, hashing: Hashing)
    requires ValidName(tag)
    ensures TagFileAsWritten(repo, src, tag, hashing).repo == TagFile(repo, src, tag, hashing).repo
    ensures TagFile(repo, src, tag, hashing).raised.Some? ==>
      TagFileAsWritten(repo, src, tag, hashing).raised == TagFile(repo, src, tag, hashing).raised
    ensures TagFileAsWritten(repo, src, tag, hashing).raised.None? ==> TagFile(repo, src, tag, hashing).raised.None?
    ensures TagFile(repo, src, tag, hashing).raised.None? && TagFileAsWritten(repo, src, tag, hashing).raised.Some? ==>
      TagFileAsWritten(repo, src, tag, hashing).raised == Some(AttributeError("FileExistsError"))
  {
  }

  /** `tag_file` is not idempotent: once a file is tagged, tagging it again
      with the same tag raises `FileExistsError` at the unguarded tag link
      and changes nothing. */
  lemma TagFileTwiceRaises(repo: Repo, src: Source, tag: Name, hashing: Hashing)
    requires ValidName(tag)
    requires TagFile(repo, src, tag, hashing).raised.None?
    ensures var once := TagFile(repo, src, tag, hashing).repo;
      var twice := TagFile(once, src, tag, hashing);
      && twice.raised == Some(FileExists(LinkPath(repo.root, tag, FileHash(src, hashing), Basename(src.path))))
      && twice.repo == once
  {
    var once := TagFile(repo, src, tag, hashing).repo;
    var l := TagLink(src, tag, hashing);
    assert Entry(once, l.0, l.1, l.2) == Some(src.inode);
    assert HasShard(once, l.0, l.1);
    assert EnsureShard(once, l.0, l.1) == Ok(once);
    assert Link(once, l.0, l.1, l.2, src.inode).Err?;
    assert PlaceAndPrepare(once, src, tag, hashing).repo == once;
  }

  /** The defect of the code as written: after a file was tagged once,
      tagging it with a second tag creates the new tag link and then raises
      `AttributeError`, because the `.names` link of the first call is
      already there. */
  lemma RetagAsWrittenRaises(repo: Repo, src: Source, first: Name, second: Name, hashing: Hashing)
    requires ValidName(first) && ValidName(second)
    requires TagFileAsWritten(repo, src, first, hashing).raised.None?
    requires var once := TagFileAsWritten(repo, src, first, hashing).repo;
      var l := TagLink(src, second, hashing);
      CanMakeDirs(once, second) && Entry(once, l.0, l.1, l.2).None?
    ensures var once := TagFileAsWritten(repo, src, first, hashing).repo;
      var l := TagLink(src, second, hashing);
      var again := TagFileAsWritten(once, src, second, hashing);
      again.raised == Some(AttributeError("FileExistsError"))
      && Entry(again.repo, l.0, l.1, l.2) == Some(src.inode)
  {
    AsWrittenReachesSameState(repo, src, first, hashing);
    var once := TagFileAsWritten(repo, src, first, hashing).repo;
    var n := NamesLink(src, hashing);
    assert Entry(once, n.0, n.1, n.2).Some?;
    assert NamesDir in once.dirs;
  }

  /** With the intended `except FileExistsError`, the second tag succeeds:
      the file is linked under both tags and the `.names` link is kept. */
  lemma RetagSucceeds(repo: Repo, src: Source, first: Name, second: Name, hashing: Hashing)
    requires ValidName(first) && ValidName(second)
    requires TagFile(repo, src, first, hashing).raised.None?
    requires var once := TagFile(repo, src, first, hashing).repo;
      var l := TagLink(src, second, hashing);
      CanMakeDirs(once, second) && Entry(once, l.0, l.1, l.2).None?
    ensures var once := TagFile(repo, src, first, hashing).repo;
      var l1 := TagLink(src, first, hashing);
      var l2 := TagLink(src, second, hashing);
      var n := NamesLink(src, hashing);
      var again := TagFile(once, src, second, hashing);
      && again.raised.None?
      && Entry(again.repo, l1.0, l1.1, l1.2) == Some(src.inode)
      && Entry(again.repo, l2.0, l2.1, l2.2) == Some(src.inode)
      && Entry(again.repo, n.0, n.1, n.2) == Entry(once, n.0, n.1, n.2)
  {
    var once := TagFile(repo, src, first, hashing).repo;
    var l1 := TagLink(src, first, hashing);
    var l2 := TagLink(src, second, hashing);
    var n := NamesLink(src, hashing);
    assert NamesDir in once.dirs;
    assert l1 != l2;
    assert Entry(once, n.0, n.1, n.2).Some?;
    assert l2 != n;
  }
}
