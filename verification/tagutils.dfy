/** The directory-walk query engine (tagger/tagutils.py): a query is a
    path whose non-empty components are tags, and its answer is found by
    intersecting directory listings of the repository. */
module TagUtils {
  import opened Paths
  import opened Outcomes
  import opened Repository

  /** Every tag of `tags` has a directory. */
  predicate TagDirsExist(repo: Repo, tags: seq<Name>) {
    forall i | 0 <= i < |tags| :: tags[i] in repo.dirs
  }

  /** `tags[i]` is the first tag without a directory: the one whose
      `os.listdir` raises in the loops below. */
  predicate FirstMissingTag(repo: Repo, tags: seq<Name>, i: nat) {
    i < |tags| && tags[i] !in repo.dirs && TagDirsExist(repo, tags[..i])
  }

  /** `prefix` is a shard directory of every tag of `tags`. */
  predicate InEveryTag(repo: Repo, tags: seq<Name>, prefix: Name) {
    forall i | 0 <= i < |tags| :: HasShard(repo, tags[i], prefix)
  }

  /** `[x[:40] for x in names]` as a set. */
  function Heads(names: set<Name>): set<Name> {
    set n | n in names :: HashHead(n)
  }

  /** Hash head `h` occurs under `prefix` in every tag of `tags`. */
  predicate HeadInEveryTag(repo: Repo, tags: seq<Name>, prefix: Name, h: Name) {
    forall i | 0 <= i < |tags| ::
      HasShard(repo, tags[i], prefix) && h in Heads(Links(repo, tags[i], prefix))
  }

  /** `tags[i]` is the first tag lacking the shard directory `prefix`. */
  predicate FirstMissingShard(repo: Repo, tags: seq<Name>, prefix: Name, i: nat) {
    i < |tags| && !HasShard(repo, tags[i], prefix) && InEveryTag(repo, tags[..i], prefix)
  }

  lemma InEveryTagStep(repo: Repo, tags: seq<Name>, k: nat, prefix: Name)
    requires k < |tags|
    ensures InEveryTag(repo, tags[..k + 1], prefix)
        <==> InEveryTag(repo, tags[..k], prefix) && HasShard(repo, tags[k], prefix)
  {
    assert tags[..k + 1] == tags[..k] + [tags[k]];
  }

  lemma HeadInEveryTagStep(repo: Repo, tags: seq<Name>, k: nat, prefix: Name, h: Name)
    requires k < |tags|
    ensures HeadInEveryTag(repo, tags[..k + 1], prefix, h)
        <==> HeadInEveryTag(repo, tags[..k], prefix, h)
             && HasShard(repo, tags[k], prefix)
             && h in Heads(Links(repo, tags[k], prefix))
  {
    assert tags[..k + 1] == tags[..k] + [tags[k]];
  }

  /** `get_common_hash_prefixes`: the shard keys present under every tag.
      No tags gives Python's `None`; a missing tag directory raises. */
  method CommonHashPrefixes(repo: Repo, tags: seq<Name>) returns (r: Result<Option<set<Name>>>)
    ensures r.Ok? <==> TagDirsExist(repo, tags)
    ensures r.Err? ==> exists i | 0 <= i < |tags| ::
      FirstMissingTag(repo, tags, i) && r.error == ListTop(repo, tags[i]).error
    ensures r.Ok? ==> (r.value.None? <==> |tags| == 0)
    ensures r.Ok? && r.value.Some? ==>
      forall p :: p in r.value.value <==> InEveryTag(repo, tags, p)
  {
    var common: Option<set<Name>> := None;
    var k := 0;
    while k < |tags|
      invariant 0 <= k <= |tags|
      invariant TagDirsExist(repo, tags[..k])
      invariant common.None? <==> k == 0
      invariant common.Some? ==> forall p :: p in common.value <==> InEveryTag(repo, tags[..k], p)
    {
      var listing := ListTop(repo, tags[k]);
      if listing.Err? {
        assert FirstMissingTag(repo, tags, k);
        return Err(listing.error);
      }
      forall p
        ensures InEveryTag(repo, tags[..k + 1], p)
            <==> InEveryTag(repo, tags[..k], p) && HasShard(repo, tags[k], p)
      {
        InEveryTagStep(repo, tags, k, p);
      }
      if common.None? {
        assert tags[..k] == [];
        common := Some(listing.value);
      } else {
        common := Some(common.value * listing.value);
      }
      assert tags[..k + 1] == tags[..k] + [tags[k]];
      k := k + 1;
    }
    assert tags[..k] == tags;
    return Ok(common);
  }

  /** `get_common_hashes`: the hash heads found under shard `prefix` of
      every tag. No tags gives `None`; a missing shard directory raises. */
  method CommonHashes(repo: Repo, tags: seq<Name>, prefix: Name) returns (r: Result<Option<set<Name>>>)
    ensures r.Ok? <==> InEveryTag(repo, tags, prefix)
    ensures r.Err? ==> exists i | 0 <= i < |tags| ::
      FirstMissingShard(repo, tags, prefix, i) && r.error == ListShard(repo, tags[i], prefix).error
    ensures r.Ok? ==> (r.value.None? <==> |tags| == 0)
    ensures r.Ok? && r.value.Some? ==>
      forall h :: h in r.value.value <==> HeadInEveryTag(repo, tags, prefix, h)
  {
    var common: Option<set<Name>> := None;
    var k := 0;
    while k < |tags|
      invariant 0 <= k <= |tags|
      invariant InEveryTag(repo, tags[..k], prefix)
      invariant common.None? <==> k == 0
      invariant common.Some? ==>
        forall h :: h in common.value <==> HeadInEveryTag(repo, tags[..k], prefix, h)
    {
      var listing := ListShard(repo, tags[k], prefix);
      if listing.Err? {
        assert FirstMissingShard(repo, tags, prefix, k);
        return Err(listing.error);
      }
      var hashList := Heads(listing.value);
      forall h
        ensures HeadInEveryTag(repo, tags[..k + 1], prefix, h)
            <==> HeadInEveryTag(repo, tags[..k], prefix, h) && h in hashList
      {
        HeadInEveryTagStep(repo, tags, k, prefix, h);
      }
      InEveryTagStep(repo, tags, k, prefix);
      if common.None? {
        assert tags[..k] == [];
        common := Some(hashList);
      } else {
        common := Some(common.value * hashList);
      }
      k := k + 1;
    }
    assert tags[..k] == tags;
    return Ok(common);
  }

  /** `get_files_for_hashes`: the links of one shard directory whose hash
      head is in `hashes`, and nothing else. */
  method FilesForHashes(repo: Repo, top: Name, prefix: Name, hashes: set<Name>) returns (r: Result<set<Name>>)
    ensures r.Ok? <==> HasShard(repo, top, prefix)
    ensures r.Err? ==> r.error == ListShard(repo, top, prefix).error
    ensures r.Ok? ==> forall f :: f in r.value <==> f in Links(repo, top, prefix) && HashHead(f) in hashes
  {
    var listing := ListShard(repo, top, prefix);
    if listing.Err? {
      return Err(listing.error);
    }
    var files: set<Name> := {};
    var remaining := listing.value;
    while remaining != {}
      invariant remaining <= listing.value
      invariant forall f :: f in files <==> f in listing.value && f !in remaining && HashHead(f) in hashes
      decreases remaining
    {
      var f :| f in remaining;
      if HashHead(f) in hashes {
        files := files + {f};
      }
      remaining := remaining - {f};
    }
    return Ok(files);
  }

  /** Link `f` of the first tag's shard `prefix` matches the query `tags`:
      its hash head occurs under `prefix` in every tag. */
  predicate MatchesUnder(repo: Repo, tags: seq<Name>, prefix: Name, f: Name) {
    && |tags| > 0
    && HasShard(repo, tags[0], prefix)
    && f in Links(repo, tags[0], prefix)
    && HeadInEveryTag(repo, tags, prefix, HashHead(f))
  }

  /** The intended answer of a query: the links of the first tag whose
      hash head is found under the same shard key in every tag. */
  ghost predicate IsMatch(repo: Repo, tags: seq<Name>, f: Name) {
    exists p :: MatchesUnder(repo, tags, p, f)
  }

  /** `query`: the links matching the tags of path `q`. A path without
      tags matches nothing; a tag without a directory raises. */
  method Query(repo: Repo, q: string) returns (r: Result<set<Name>>)
    ensures Segments(q) == [] ==> r == Ok({})
    ensures Segments(q) != [] ==> (r.Ok? <==> TagDirsExist(repo, Segments(q)))
    ensures r.Err? ==> exists i | 0 <= i < |Segments(q)| ::
      FirstMissingTag(repo, Segments(q), i) && r.error == ListTop(repo, Segments(q)[i]).error
    ensures r.Ok? ==> forall f :: f in r.value <==> IsMatch(repo, Segments(q), f)
  {
    var tags := Segments(q);
    if tags == [] {
      return Ok({});
    }
    var common := CommonHashPrefixes(repo, tags);
    if common.Err? {
      return Err(common.error);
    }
    var prefixes := common.value.value;
    var files: set<Name> := {};
    var remaining := prefixes;
    while remaining != {}
      invariant remaining <= prefixes
      invariant forall f :: f in files <==>
        exists p :: p in prefixes && p !in remaining && MatchesUnder(repo, tags, p, f)
      decreases remaining
    {
      var p :| p in remaining;
      var hashes := CommonHashes(repo, tags, p);
      assert hashes.Ok? && hashes.value.Some?;
      var found := FilesForHashes(repo, tags[0], p, hashes.value.value);
      assert found.Ok?;
      assert forall f :: f in found.value <==> MatchesUnder(repo, tags, p, f);
      files := files + found.value;
      remaining := remaining - {p};
    }
    forall f | IsMatch(repo, tags, f)
      ensures f in files
    {
      var p :| MatchesUnder(repo, tags, p, f);
      assert InEveryTag(repo, tags, p);
    }
    return Ok(files);
  }

  /** Monotone narrowing: adding a tag to a non-empty query never adds a
      result, because the first tag stays the same and every intersection
      can only shrink. */
  lemma QueryNarrowing(repo: Repo, tags: seq<Name>, t: Name, f: Name)
    requires |tags| > 0
    requires IsMatch(repo, tags + [t], f)
    ensures IsMatch(repo, tags, f)
  {
    var p :| MatchesUnder(repo, tags + [t], p, f);
    assert (tags + [t])[0] == tags[0];
    forall i | 0 <= i < |tags|
      ensures HasShard(repo, tags[i], p) && HashHead(f) in Heads(Links(repo, tags[i], p))
    {
      assert (tags + [t])[i] == tags[i];
    }
    assert MatchesUnder(repo, tags, p, f);
  }

  /** Narrowing in terms of FUSE paths: listing `q/t` finds no link that
      listing `q` does not. */
  lemma PathNarrowing(repo: Repo, q: string, t: Name, f: Name)
    requires ValidName(t)
    requires Segments(q) != []
    requires IsMatch(repo, Segments(Join(q, t)), f)
    ensures IsMatch(repo, Segments(q), f)
  {
    SegmentsOfJoin(q, t);
    QueryNarrowing(repo, Segments(q), t, f);
  }

  /** A one-tag query finds every link of that tag, under every shard. */
  lemma SingleTagQuery(repo: Repo, t: Name, f: Name)
    ensures IsMatch(repo, [t], f) <==> exists p :: HasShard(repo, t, p) && f in Links(repo, t, p)
  {
    if p :| HasShard(repo, t, p) && f in Links(repo, t, p) {
      assert HashHead(f) in Heads(Links(repo, t, p));
      assert MatchesUnder(repo, [t], p, f);
    }
  }

  /** Repeating a tag already in the query changes nothing. */
  lemma RepeatedTagQuery(repo: Repo, tags: seq<Name>, k: nat, f: Name)
    requires k < |tags|
    ensures IsMatch(repo, tags + [tags[k]], f) <==> IsMatch(repo, tags, f)
  {
    if IsMatch(repo, tags + [tags[k]], f) {
      QueryNarrowing(repo, tags, tags[k], f);
    }
    if IsMatch(repo, tags, f) {
      var p :| MatchesUnder(repo, tags, p, f);
      var ext := tags + [tags[k]];
      forall i | 0 <= i < |ext|
        ensures HasShard(repo, ext[i], p) && HashHead(f) in Heads(Links(repo, ext[i], p))
      {
        if i < |tags| {
          assert ext[i] == tags[i];
        } else {
          assert ext[i] == tags[k];
        }
      }
      assert MatchesUnder(repo, ext, p, f);
    }
  }

  /** The `.names` shard keyed by `key` exists and holds a link whose
      display part is `base`: what `get_file_from_fuse_path` searches for. */
  predicate NameResolves(repo: Repo, key: Name, base: string) {
    && HasShard(repo, NamesDir, key)
    && exists n | n in Links(repo, NamesDir, key) :: DisplayPart(n) == base
  }

  /** `get_file_from_fuse_path`: looks the basename up in the `.names`
      shard keyed by the hash of the basename, and builds the link path
      under the first path component. A missing `.names` shard raises, no
      matching name raises `IOError`, and a path without "/" fails at
      `split("/")[1]`. The order in which names are listed is not fixed,
      so any matching name may be chosen. */
  method FileFromFusePath(repo: Repo, textHash: string -> Digest, fusePath: string) returns (r: Result<string>)
    ensures var key := ShardKey(textHash(Basename(fusePath)));
      !HasShard(repo, NamesDir, key) ==> r.Err? && r.error == ListShard(repo, NamesDir, key).error
    ensures var base := Basename(fusePath);
      var key := ShardKey(textHash(base));
      HasShard(repo, NamesDir, key)
        && (forall n | n in Links(repo, NamesDir, key) :: DisplayPart(n) != base)
      ==> r == Err(IOError("File not found"))
    ensures var base := Basename(fusePath);
      var key := ShardKey(textHash(base));
      HasShard(repo, NamesDir, key)
        && (exists n | n in Links(repo, NamesDir, key) :: DisplayPart(n) == base)
        && '/' !in fusePath
      ==> r == Err(IndexError)
    ensures r.Ok? ==>
      var base := Basename(fusePath);
      var key := ShardKey(textHash(base));
      && '/' in fusePath
      && HasShard(repo, NamesDir, key)
      && exists n | n in Links(repo, NamesDir, key) ::
           DisplayPart(n) == base
           && r.value == Join(Join(Join(repo.root, Split(fusePath)[1]), ShardKey(n)), n)
    ensures r.Ok? <==> NameResolves(repo, ShardKey(textHash(Basename(fusePath))), Basename(fusePath)) && '/' in fusePath
  {
    var base := Basename(fusePath);
    var key := ShardKey(textHash(base));
    var names := ListShard(repo, NamesDir, key);
    if names.Err? {
      return Err(names.error);
    }
    if n :| n in names.value && DisplayPart(n) == base {
      var parts := Split(fusePath);
      if |parts| < 2 {
        return Err(IndexError);
      }
      return Ok(Join(Join(Join(repo.root, parts[1]), ShardKey(n)), n));
    } else {
      return Err(IOError("File not found"));
    }
  }

  /** `get_all_tags`: the repository's subdirectories except `.names`;
      `list.remove` raises `ValueError` when `.names` is missing. */
  function AllTags(repo: Repo): (r: Result<set<Name>>)
    ensures r.Err? <==> NamesDir !in repo.dirs
    ensures r.Err? ==> r.error.ValueError?
    ensures r.Ok? ==> NamesDir !in r.value
    ensures r.Ok? ==> forall t :: t in r.value <==> t in repo.dirs && t != NamesDir
  {
    var subdirs := set d | d in ListRoot(repo) && IsDir(repo, d);
    if NamesDir !in subdirs then Err(ValueError("list.remove(x): x not in list"))
    else Ok(subdirs - {NamesDir})
  }

  /** `get_possible_tags`: every tag not already a component of the query
      path. */
  function PossibleTags(repo: Repo, q: string): (r: Result<set<Name>>)
    ensures r.Err? <==> NamesDir !in repo.dirs
    ensures r.Ok? ==> forall t | t in r.value :: t in repo.dirs && t != NamesDir && t !in Segments(q)
    ensures r.Ok? ==> forall t ::
      t in repo.dirs && t != NamesDir && t != "" && t !in Segments(q) ==> t in r.value
  {
    var all :- AllTags(repo);
    Ok(all - set x | x in Split(q))
  }

  /** `is_tag`: membership in `get_all_tags`. */
  function IsTag(repo: Repo, t: Name): (r: Result<bool>)
    ensures r.Err? <==> NamesDir !in repo.dirs
    ensures r.Ok? ==> (r.value <==> t in repo.dirs && t != NamesDir)
  {
    var all :- AllTags(repo);
    Ok(t in all)
  }

  /** In a well-formed repository the empty component "" is never a tag,
      so the possible tags are exactly the tags missing from the query. */
  lemma PossibleTagsExact(repo: Repo, q: string, t: Name)
    requires WellFormed(repo)
    requires NamesDir in repo.dirs
    ensures t in PossibleTags(repo, q).value
        <==> t in repo.dirs && t != NamesDir && t !in Segments(q)
  {
    if t in repo.dirs {
      assert ValidName(t);
    }
  }
}
