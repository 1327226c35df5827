/** The virtual filesystem adapter (class `Tagger` of
    tagger/fuse_tagger.py): path logic that answers `getattr` and
    `readdir` from the repository directory and the relational index. A
    FUSE path is `/tag1/tag2/.../name`; every directory is a tag. */
module FuseTagger {
  import opened Paths
  import opened Outcomes
  import opened Repository
  import opened Sql
  import opened TagUtils

  /** The mounted repository: its directory state and its relational index. */
  datatype Tagger = Tagger(repo: Repo, db: Db)

  /** The eight `os.lstat` fields the adapter reports; their values are
      opaque here. */
  datatype StatResult = StatResult(atime: int, ctime: int, gid: int, mode: int,
                                   mtime: int, nlink: int, size: int, uid: int)

  /** The attribute names `getattr` copies from an `os.lstat` result. */
  const StatKeys: set<string> :=
    {"st_atime", "st_ctime", "st_gid", "st_mode", "st_mtime", "st_nlink", "st_size", "st_uid"}

  /** The dictionary built from an `os.lstat` result. */
  function AttrDict(st: StatResult): (a: map<string, int>)
    ensures a.Keys == StatKeys
    ensures a["st_atime"] == st.atime && a["st_ctime"] == st.ctime && a["st_gid"] == st.gid
    ensures a["st_mode"] == st.mode && a["st_mtime"] == st.mtime && a["st_nlink"] == st.nlink
    ensures a["st_size"] == st.size && a["st_uid"] == st.uid
  {
    map["st_atime" := st.atime, "st_ctime" := st.ctime, "st_gid" := st.gid,
        "st_mode" := st.mode, "st_mtime" := st.mtime, "st_nlink" := st.nlink,
        "st_size" := st.size, "st_uid" := st.uid]
  }

  /** `os.lstat(path)` followed by the dictionary; `lstat` stands for the
      host filesystem and yields `None` where `os.lstat` raises. */
  function StatAttrs(lstat: string -> Option<StatResult>, path: string): (r: Result<map<string, int>>)
    ensures r.Ok? <==> lstat(path).Some?
    ensures r.Ok? ==> r.value.Keys == StatKeys
    ensures r.Ok? ==> r.value == AttrDict(lstat(path).value)
  {
    match lstat(path)
    case None => Err(FileNotFound(path))
    case Some(st) => Ok(AttrDict(st))
  }

  /** `access`: a no-op, so every check passes whatever the path and mode. */
  function Access(path: string, mode: int): (r: Result<()>)
    ensures r.Ok?
  {
    Ok(())
  }

  /** `fuse_path_to_real`: the link of the file whose display name is the
      path's basename, under the path's first component. The hash comes
      from the first `file` row with that name; `split("/")[1]` fails on a
      path without "/". */
  function FusePathToReal(t: Tagger, path: string): (r: Result<Option<string>>)
    ensures r.Err? <==> '/' !in path
    ensures r.Err? ==> r.error == IndexError
    ensures r.Ok? ==> (r.value.None? <==> forall k | 0 <= k < |t.db.files| :: t.db.files[k].name != Basename(path))
    ensures r.Ok? && r.value.Some? ==>
      exists k | 0 <= k < |t.db.files| ::
        && t.db.files[k].name == Basename(path)
        && r.value.value == LinkPath(t.repo.root, Split(path)[1], t.db.files[k].hash, Basename(path))
  {
    var parts := Split(path);
    if |parts| < 2 then
      Err(IndexError)
    else
      var basetag := parts[1];
      var basename := Basename(path);
      match FileGetHash(t.db, basename)
      case None => Ok(None)
      case Some(h) => Ok(Some(Join(Join(Join(t.repo.root, basetag), ShardKey(h)), h + basename)))
  }

  /** The physical path depends only on the first component and the
      basename: the tags in between play no part. */
  lemma RealPathIgnoresInnerTags(t: Tagger, p1: string, p2: string)
    requires '/' in p1 && '/' in p2
    requires Split(p1)[1] == Split(p2)[1]
    requires Basename(p1) == Basename(p2)
    ensures FusePathToReal(t, p1) == FusePathToReal(t, p2)
  {
  }

  /** `getattr`: the root stats the repository itself; a path whose
      basename is a tag stats that tag's directory, whatever comes before
      it; otherwise the basename is looked up as a file, and an unknown
      name gives the empty dictionary. */
  function Getattr(t: Tagger, lstat: string -> Option<StatResult>, path: string): (r: Result<map<string, int>>)
    ensures path == "/" ==> r == StatAttrs(lstat, t.repo.root)
    ensures path != "/" && NamesDir !in t.repo.dirs ==> r.Err? && r.error.ValueError?
    ensures path != "/" && NamesDir in t.repo.dirs
            && Basename(path) in t.repo.dirs && Basename(path) != NamesDir
        ==> r == StatAttrs(lstat, Join(t.repo.root, Basename(path)))
    ensures r == Ok(map[]) <==>
      && path != "/"
      && NamesDir in t.repo.dirs
      && !(Basename(path) in t.repo.dirs && Basename(path) != NamesDir)
      && '/' in path
      && forall k | 0 <= k < |t.db.files| :: t.db.files[k].name != Basename(path)
    ensures path != "/" && NamesDir in t.repo.dirs
            && !(Basename(path) in t.repo.dirs && Basename(path) != NamesDir)
            && FusePathToReal(t, path).Ok? && FusePathToReal(t, path).value.Some?
        ==> r == StatAttrs(lstat, FusePathToReal(t, path).value.value)
    ensures path != "/" && NamesDir in t.repo.dirs
            && !(Basename(path) in t.repo.dirs && Basename(path) != NamesDir)
            && '/' !in path
        ==> r == Err(IndexError)
    ensures r.Ok? && r.value != map[] ==> r.value.Keys == StatKeys
  {
    var base := Basename(path);
    if path == "/" then
      StatAttrs(lstat, t.repo.root)
    else
      var isTag :- IsTag(t.repo, base);
      if isTag then
        StatAttrs(lstat, Join(t.repo.root, base))
      else
        var linked :- FusePathToReal(t, path);
        match linked
        case None => Ok(map[])
        case Some(p) => StatAttrs(lstat, p)
  }

  /** A directory listing: the tag subdirectories, then the display names
      of the matching files. */
  datatype DirListing = DirListing(tags: set<Name>, files: set<string>)

  /** `readdir`: the tags that can still be added to the path, and the
      display names the relational index returns for the path's tags. */
  function Readdir(t: Tagger, path: string): (r: Result<DirListing>)
    ensures r.Err? <==> NamesDir !in t.repo.dirs
    ensures r.Ok? ==> forall x | x in r.value.tags :: x !in Segments(path)
    ensures r.Ok? ==> forall x | x in r.value.tags :: x in t.repo.dirs && x != NamesDir
    ensures r.Ok? ==> forall x ::
      x in t.repo.dirs && x != NamesDir && x != "" && x !in Segments(path) ==> x in r.value.tags
    ensures r.Ok? && Segments(path) == [] ==> r.value.files == {}
    ensures r.Ok? ==> forall f | f in r.value.files ::
      exists k | 0 <= k < |t.db.files| :: t.db.files[k].name == f
  {
    var directories :- PossibleTags(t.repo, path);
    var found := GetTaggedFiles(t.db, Segments(path));
    Ok(DirListing(directories, set p | p in found :: p.0))
  }

  /** Listing the root gives every tag and no file. */
  lemma ReaddirRoot(t: Tagger)
    requires WellFormed(t.repo)
    requires NamesDir in t.repo.dirs
    ensures Readdir(t, "/").Ok?
    ensures Readdir(t, "/").value.files == {}
    ensures forall x :: x in Readdir(t, "/").value.tags <==> x in t.repo.dirs && x != NamesDir
  {
    SegmentsOfRoot();
    forall x | x in t.repo.dirs
      ensures x != ""
    {
      assert ValidName(x);
    }
  }

  /** Over a valid index and a path naming distinct tags, the listed file
      names are exactly the display names of files carrying every tag of
      the path. */
  lemma ReaddirFilesExact(t: Tagger, path: string, f: string)
    requires Valid(t.db)
    requires NamesDir in t.repo.dirs
    requires Segments(path) != [] && Distinct(Segments(path))
    ensures f in Readdir(t, path).value.files
        <==> exists k | 0 <= k < |t.db.files| ::
               t.db.files[k].name == f && TaggedWithAll(t.db, k, Segments(path))
  {
    var tags := Segments(path);
    var found := GetTaggedFiles(t.db, tags);
    if f in Readdir(t, path).value.files {
      var p :| p in found && p.0 == f;
      GetTaggedFilesExact(t.db, tags, p.0, p.1);
    }
    if k :| 0 <= k < |t.db.files| && t.db.files[k].name == f && TaggedWithAll(t.db, k, tags) {
      var row := t.db.files[k];
      GetTaggedFilesExact(t.db, tags, row.name, row.hash);
      assert (row.name, row.hash) in found;
    }
  }

  /** Descending into a tag never offers that tag again. */
  lemma ReaddirNeverRepeatsTag(t: Tagger, path: string, tag: Name)
    requires ValidName(tag)
    requires NamesDir in t.repo.dirs
    ensures tag !in Readdir(t, Join(path, tag)).value.tags
  {
    SegmentsOfJoin(path, tag);
    assert tag in Segments(Join(path, tag));
  }
}
