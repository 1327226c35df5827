/** The repository directory as abstract state: the content store of
    the tagger. Below the repository root there is one directory per
    tag plus the reserved `.names` directory; each holds two-character
    shard directories; each shard holds hard links named
    `hash + display_name`. A link is recorded by the inode it refers to. */
module Repository {
  import opened Paths
  import opened Outcomes

  /** Identity of the linked content (hard links share an inode). */
  type Inode = nat

  /** `root` is the repository's path; `dirs` its subdirectories; `shards`
      the shard directories `(top, prefix)`; `links` the inode of each link
      `(top, prefix, name)`; `plain` the other entries of the root (such as
      the SQLite file of the relational index). */
  datatype RepoState = RepoState(root: string, dirs: set<Name>, shards: set<(Name, Name)>,
                                 links: map<(Name, Name, Name), Inode>, plain: set<Name>)

  /** A shard directory lies inside an existing top-level directory, and
      a link inside an existing shard; no entry of the root is both a
      directory and a plain file. */
  predicate IsTree(r: RepoState) {
    && r.dirs !! r.plain
    && (forall s | s in r.shards :: s.0 in r.dirs)
    && (forall k | k in r.links :: (k.0, k.1) in r.shards)
  }

  /** The repository states a filesystem can hold. */
  type Repo = r: RepoState | IsTree(r) witness RepoState("", {}, {}, map[], {})

  /** The reserved directory of the name-keyed reverse index. */
  const NamesDir: Name := ".names"

  /** `os.listdir(repository)`. */
  function ListRoot(repo: Repo): set<Name> {
    repo.dirs + repo.plain
  }

  /** `os.path.isdir(os.path.join(repository, d))`. */
  predicate IsDir(repo: Repo, d: Name) {
    d in repo.dirs
  }

  /** What `os.listdir` raises for `repository/top` when it is not a directory. */
  function TopError(repo: Repo, top: Name, path: string): Error {
    if top in repo.plain then NotADirectory(path) else FileNotFound(path)
  }

  /** `repository/top/prefix` is an existing shard directory. */
  predicate HasShard(repo: Repo, top: Name, prefix: Name) {
    (top, prefix) in repo.shards
  }

  /** The shard keys under `top`. */
  function Prefixes(repo: Repo, top: Name): (r: set<Name>)
    ensures forall p :: p in r <==> (top, p) in repo.shards
  {
    set s | s in repo.shards && s.0 == top :: s.1
  }

  /** The link names in shard `top/prefix`. */
  function Links(repo: Repo, top: Name, prefix: Name): (r: set<Name>)
    ensures forall n :: n in r <==> (top, prefix, n) in repo.links
  {
    set k | k in repo.links && k.0 == top && k.1 == prefix :: k.2
  }

  /** `os.listdir(repository/top)`. */
  function ListTop(repo: Repo, top: Name): (r: Result<set<Name>>)
    ensures r.Ok? <==> top in repo.dirs
    ensures r.Ok? ==> forall p :: p in r.value <==> HasShard(repo, top, p)
  {
    if top in repo.dirs then Ok(Prefixes(repo, top))
    else Err(TopError(repo, top, Join(repo.root, top)))
  }

  /** `os.listdir(repository/top/prefix)`. */
  function ListShard(repo: Repo, top: Name, prefix: Name): (r: Result<set<Name>>)
    ensures r.Ok? <==> HasShard(repo, top, prefix)
    ensures r.Ok? ==> forall n :: n in r.value <==> (top, prefix, n) in repo.links
  {
    var path := Join(Join(repo.root, top), prefix);
    if (top, prefix) in repo.shards then Ok(Links(repo, top, prefix))
    else if top in repo.dirs then Err(FileNotFound(path))
    else Err(TopError(repo, top, path))
  }

  /** The inode linked at `repository/top/prefix/name`, if any. */
  function Entry(repo: Repo, top: Name, prefix: Name, name: Name): Option<Inode> {
    if (top, prefix, name) in repo.links then Some(repo.links[(top, prefix, name)]) else None
  }

  /** The physical path of a file's link under a top-level directory:
      `repository/top/hash[:2]/hash+display_name`. */
  function LinkPath(root: string, top: Name, hash: string, displayName: Name): string {
    Join(Join(Join(root, top), ShardKey(hash)), hash + displayName)
  }

  /** Every name stored in the repository is a valid path component. */
  predicate WellFormed(repo: Repo) {
    && (forall d | d in repo.dirs :: ValidName(d))
    && (forall d | d in repo.plain :: ValidName(d))
  }
}
