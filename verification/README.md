# tagger, modelled in Dafny

`tagger` presents a pool of files as a virtual filesystem in which every
directory is a tag. Listing `/fiction/long` gives the files that carry both
tags. Each file is stored once, content-addressed by its SHA-1 hash, as hard
links named `hash + display_name`. The links live in
`repository/<tag>/<hash[:2]>/`, and one more copy of each link sits in the
reserved `repository/.names/<sha1(display_name)[:2]>/`. A SQLite index holds
three tables, `file`, `tag` and `file_tag`, which `file_tag` fills. Nothing
in the tagging path keeps the index in step with the links: `tag_file`
(tagger/main.py:17-43) never calls `file_tag`. The model therefore treats
the directory state and the index as independent inputs of the FUSE
adapter.

This project models the core of the program. It covers:
- the directory-walk query engine (`tagger/tagutils.py`);
- the relational index (`tagger/sql.py`);
- the tagging write path (`tagger/main.py`);
- the path logic of the FUSE adapter class `Tagger` (`tagger/fuse_tagger.py`).

The project is split into modules:

- `Outcomes` (`outcomes.dfy`): `Option`, and `Result` with the Python exceptions the core can raise.
- `Paths` (`paths.dfy`):
  - string slicing (`x[:n]`, `x[n:]`) and the 40-character hexadecimal digests;
  - `str.split("/")` with its round trip;
  - `os.path.basename`;
  - the non-empty path segments a FUSE path denotes.
- `Repository` (`repository.dfy`):
  - the repository directory as immutable state: the set of top-level directories, the set of shard directories `(tag, shard key)`, a map from each link `(tag, shard key, link name)` to the inode it shares, and the root's plain files;
  - the tree shape a filesystem guarantees (a shard lies in an existing directory, a link in an existing shard, and no root entry is both a directory and a plain file) as the subset type `Repo`;
  - `os.listdir` as a lookup returning a set.
- `TagUtils` (`tagutils.dfy`):
  - the intersection loops and `query`, as methods whose loop invariants tie them to declarative predicates;
  - the `.names` lookup;
  - tag enumeration.
- `Sql` (`sql.dfy`):
  - the three tables as sequences in rowid order, so a row's id is its position and a fresh id is the table's length;
  - every lookup and insert, `file_tag` and `get_tagged_files`;
  - the uniqueness invariant `Valid` that `file_tag` keeps.
- `Tagging` (`tagging.dfy`): `tag_file` as a state transformer. It returns the state reached and the exception raised, if any, because the call can raise after creating directories or links.
- `FuseTagger` (`fuse_tagger.dfy`): `access`, `fuse_path_to_real`, `getattr` and `readdir` over the directory state and the relational index.
- `Agreement` (`agreement.dfy`): how the read paths see what the write paths did.

SHA-1 (`hash_file_sha1`, `hash_string`) is an uninterpreted function that returns a 40-character lowercase hexadecimal string. `os.lstat` is a parameter that yields an opaque stat record, or nothing where it would raise.

Behaviour of the code worth knowing:

- `tag_file` is not idempotent. It does not guard the tag link, so tagging the same file with the same tag again raises `FileExistsError` (`Tagging.TagFileTwiceRaises`).
- `get_tagged_files` does not de-duplicate tag names before counting, so a query that repeats a name matches nothing (`Sql.GetTaggedFilesRepeated`).
- `fuse_path_to_real` indexes `split("/")[1]`, so a path without "/" raises `IndexError`. `FuseTagger.FusePathToReal` returns that error.
- The two indexes keep different display names for one hash. The relational index keeps the first writer's name (`Sql.FileTag`). The directory index keeps a link for every name.
- `readdir` of `Tagger` lists no `.` or `..`.
- `Tagging.TagFile` is `tag_file` with the clause `except FileExistsError` that the code evidently intends (see "## Findings"); `Tagging.TagFileAsWritten` is the code as written. `Tagging.AsWrittenReachesSameState` proves that both reach the same directory state, so the statements about the state after `Tagging.TagFile` hold of the code as written as well.

## Model

| member | source | states |
|---|---|---|
| Paths.Take | tagger/tagutils.py:30 | `x[:n]` never fails: it is a prefix of `x`, of length `n` or all of `x` when shorter |
| Paths.Drop | tagger/tagutils.py:67 | `x[n:]` is what remains after `x[:n]`: the two concatenate to `x`, and it is empty when `x` is shorter than `n` |
| Paths.HashedNameRoundTrip | tagger/main.py:28 | for a 40-character digest, the first 40 characters of `hash + name` give back the hash and the rest give back the name, as `tagutils` reads them |
| Paths.DigestNames | tagger/main.py:20-28 | a digest's two-character shard key and `hash + name` of a valid name are again valid path components |
| Paths.Split | tagger/tagutils.py:90 | `split("/")` yields at least one piece and no piece contains "/"; joining the pieces with "/" gives the input back; there is a single piece exactly when the input has no "/" |
| Paths.SplitAppend | tagger/tagutils.py:118 | splitting `q + "/" + t`, for `t` without "/", gives the pieces of `q` followed by `t` |
| Paths.Basename | tagger/fuse_tagger.py:148 | `os.path.basename` is the longest "/"-free suffix of the path: it has no "/", it ends the path, and when shorter than the path it is preceded by "/" |
| Paths.BasenameOfJoin | tagger/tagutils.py:61 | the basename of "/"-free pieces joined with "/" is the last piece, so with the round trip of `split("/")` a path's basename is the last piece of its split |
| Paths.NonEmpty | tagger/tagutils.py:118 | `[x for x in parts if x != '']`: a string is kept exactly when it is a non-empty element of `parts` |
| Paths.Segments | tagger/tagutils.py:118 | the query's tags: a name is among them exactly when it is a non-empty piece of `split("/")`; none is empty or contains "/" |
| Paths.NonEmptySingle | tagger/tagutils.py:118 | one piece is kept exactly when it is non-empty; with `Paths.NonEmptyAppend` this fixes the filter on every list |
| Paths.NonEmptyCounts | tagger/tagutils.py:118 | the filtered list holds every non-empty piece exactly as often as the input does, and no empty piece |
| Paths.NonEmptyFirst | tagger/tagutils.py:118 | the filtered list starts with the first non-empty piece of its input |
| Paths.SegmentsCounts | tagger/tagutils.py:118 | the list comprehension keeps multiplicity and the first tag: the tags are the non-empty pieces of `split("/")`, each as often as it occurs, and the first tag is the first non-empty piece; the full order follows from `Paths.NonEmptySingle` and `Paths.NonEmptyAppend` |
| Paths.SegmentsOfJoin | tagger/fuse_tagger.py:185 | appending the component `t` to a path appends `t` to its segments |
| Paths.SegmentsOfRoot | tagger/fuse_tagger.py:185 | the root path "/" has no segments |
| Repository.Prefixes | tagger/tagutils.py:13-14 | a shard key is listed under a directory exactly when that shard directory exists |
| Repository.Links | tagger/tagutils.py:29 | a link name is listed in a shard exactly when that link exists |
| Repository.ListTop | tagger/tagutils.py:13-14 | `os.listdir(repository/tag)` succeeds exactly when the tag directory exists, and lists exactly its shard keys |
| Repository.ListShard | tagger/tagutils.py:29 | `os.listdir(repository/tag/prefix)` succeeds exactly when the shard exists, and lists exactly its links |
| TagUtils.CommonHashPrefixes | tagger/tagutils.py:9-19 | fails with the error of the first tag lacking a directory, and only then; returns `None` exactly for an empty tag list; otherwise a prefix is returned exactly when every tag has it, so a single tag gives its own listing |
| TagUtils.CommonHashes | tagger/tagutils.py:22-35 | fails with the error of the first tag lacking the shard, and only then; otherwise a 40-character head (`x[:40]` of a listed link, the set `TagUtils.Heads`) is returned exactly when it occurs under the prefix in every tag |
| TagUtils.FilesForHashes | tagger/tagutils.py:38-51 | fails exactly when the shard is missing; otherwise returns exactly the shard's links whose first 40 characters are among the hashes |
| TagUtils.Query | tagger/tagutils.py:115-132 | a path without non-empty segments gives no files; otherwise the call fails exactly when some tag lacks a directory, with the first such tag's error, and returns exactly the links of the first tag whose hash head occurs under the same shard in every tag |
| TagUtils.QueryNarrowing | tagger/tagutils.py:122-132 | appending a tag to a non-empty tag list never adds a match |
| TagUtils.PathNarrowing | tagger/tagutils.py:118-132 | descending from path `q` into tag `t` never adds a match |
| TagUtils.SingleTagQuery | tagger/tagutils.py:122-132 | a single-tag query matches exactly the links stored anywhere under that tag |
| TagUtils.RepeatedTagQuery | tagger/tagutils.py:122-132 | repeating a tag already in the query changes no match |
| TagUtils.FileFromFusePath | tagger/tagutils.py:56-76 | succeeds exactly when the `.names` shard of the basename's hash holds a link whose part after 40 characters equals the basename and the path has a "/", and then returns `repository/<first piece>/<name[:2]>/<name>` for such a link `name`; a missing shard raises the listing error, no such link raises `IOError("File not found")`, a match in a path without "/" raises `IndexError` |
| TagUtils.AllTags | tagger/tagutils.py:79-84 | raises `ValueError` exactly when `.names` is missing; otherwise a name is a tag exactly when it is an entry of `os.listdir(repository)` (`Repository.ListRoot`, directories and plain files) that is a directory other than `.names` |
| TagUtils.IsTag | tagger/tagutils.py:95-97 | fails exactly as tag enumeration does; otherwise true exactly for subdirectories other than `.names` |
| TagUtils.PossibleTags | tagger/tagutils.py:87-92 | fails exactly as tag enumeration does; otherwise disjoint from the path's segments and holding every other non-empty tag |
| TagUtils.PossibleTagsExact | tagger/tagutils.py:87-92 | in a repository of valid names, a name is offered exactly when it is a tag not among the path's segments |
| Sql.FirstIndex | tagger/sql.py:61-62 | a value is found exactly when it occurs, at its first position |
| Sql.TagExists | tagger/sql.py:47-50 | true exactly when some tag row has the name |
| Sql.TagGetId | tagger/sql.py:59-62 | fails with `TypeError` (`None[0]`) exactly when no row has the name; otherwise the id of the first row with that name |
| Sql.TagAdd | tagger/sql.py:53-56 | appends one row with the fresh id and changes nothing else; a name new to the table then resolves to that id |
| Sql.FileExists | tagger/sql.py:65-68 | true exactly when some file row has the hash |
| Sql.FileGetId | tagger/sql.py:89-92 | fails with `TypeError` exactly when no row has the hash; otherwise the id of the first row with that hash |
| Sql.FileAdd | tagger/sql.py:82-86 | appends one `(name, hash)` row with the fresh id and changes nothing else; a new hash then resolves to that id |
| Sql.FileGetHash | tagger/sql.py:97-104 | `None` exactly when no row has the name; otherwise the hash of the first row with that name |
| Sql.FileTagged | tagger/sql.py:71-79 | a true answer needs a file row with the hash and a tag row with the name; over a valid index the answer is true exactly when the association of the ids `file_get_id` and `tag_get_id` return is recorded, which is the pair `file_tag` would insert |
| Sql.FileTag | tagger/sql.py:107-124 | always succeeds and leaves the file tagged; every table only grows, by at most one row; a known hash keeps its rows and first writer's name, a new hash gets the given name; a tag row is added exactly when the name is new; an already tagged file gains no association |
| Sql.FileTagIdempotent | tagger/sql.py:111-124 | a second identical `file_tag` leaves all three tables unchanged |
| Sql.EmptyDbValid | tagger/sql.py:24-41 | the freshly created schema satisfies the uniqueness invariant |
| Sql.FileTagKeepsValid | tagger/sql.py:111-124 | `file_tag` keeps one row per hash, one row per tag name, and associations that refer to existing rows |
| Sql.FileAddKeepsValid | tagger/sql.py:111-112 | inserting a file only when its hash is absent keeps the invariant |
| Sql.TagAddKeepsValid | tagger/sql.py:115-116 | inserting a tag only when its name is absent keeps the invariant |
| Sql.AssociateKeepsValid | tagger/sql.py:119-124 | recording an association between existing rows keeps the invariant |
| Sql.FileTagCarries | tagger/sql.py:107-124 | after `file_tag(name, h, t)` on a valid index, the row `h` resolves to carries `t`, and the index's name for `h` is that row's name |
| Sql.GetTaggedFiles | tagger/sql.py:127-143 | no tags give no rows; every returned pair is an existing file row |
| Sql.GetTaggedFilesExact | tagger/sql.py:134-143 | over a valid index and distinct, non-empty names, a file row is returned exactly when it carries every listed tag |
| Sql.GetTaggedFilesRepeated | tagger/sql.py:138-140 | over a valid index, a name list with a repeat returns nothing, because the distinct count never reaches the list's length |
| Sql.GroupCountMeansAll | tagger/sql.py:138-140 | for distinct names, the `count(distinct t.id) = len(tags)` check holds exactly when the file carries every name |
| Tagging.EnsureShard | tagger/main.py:20-23 | fails with `NotADirectory` exactly when a plain file takes the tag's place; otherwise the shard directory exists afterwards, an existing one is left as it was, and the tag directory is the only possible new top-level directory |
| Tagging.EnsureShardFrame | tagger/main.py:20-23 | creating a shard directory adds that one shard and changes no link |
| Tagging.EnsureShardKeeps | tagger/main.py:20-23 | every link, at any place, is the same after creating a shard directory |
| Tagging.EnsureShardChangedOnly | tagger/main.py:20-23 | creating the shard of one of the two links `tag_file` makes stays within the change `tag_file` is allowed |
| Tagging.Link | tagger/main.py:32 | `os.link` succeeds exactly when the shard exists and the name is free, and then records the source's inode there; with the shard present it otherwise raises `FileExistsError`; the directories are unchanged |
| Tagging.LinkFrame | tagger/main.py:32 | a new link adds that link only: the shard directories and every other link stay as they were |
| Tagging.LinkKeeps | tagger/main.py:32 | every link at another place is the same after `os.link` |
| Tagging.LinkChangedOnly | tagger/main.py:32 | making one of the two links `tag_file` makes stays within the change `tag_file` is allowed |
| Tagging.PlaceAndPrepare | tagger/main.py:17-38 | succeeds exactly when both directories can be made and the tag link is free, leaving the tag link pointing at the source's inode and the `.names` shard present; an existing tag link raises `FileExistsError` |
| Tagging.TagFileAsWritten | tagger/main.py:17-43 | completes exactly when the directories can be made and the tag link and the `.names` link are two distinct places, both free; when the `.names` link is taken, or is the very place of the tag link (tag `.names` and equal shard keys), it raises `AttributeError` after the tag link was made; only the two links and their shards change |
| Tagging.TagFile | tagger/main.py:17-43 | `tag_file` with the evidently intended `except FileExistsError` (see "## Findings"): completes exactly when the directories can be made and the tag link is free, leaving the tag link pointing at the source and a `.names` link present, which points at the source when none existed before; an existing tag link raises `FileExistsError`; only the two links and their shards change |
| Tagging.AsWrittenReachesSameState | tagger/main.py:17-43 | the code as written and the corrected `tag_file` reach the same directory state; they raise the same exception except that the code as written raises `AttributeError` where the corrected one completes |
| Tagging.TagFileTwiceRaises | tagger/main.py:30-32 | tagging the same file with the same tag again raises `FileExistsError` and changes nothing |
| Tagging.RetagAsWrittenRaises | tagger/main.py:40-43 | as written, after a first `tag_file` succeeded, a second call with another tag raises `AttributeError` after creating the new tag link |
| Tagging.RetagSucceeds | tagger/main.py:40-43 | with the intended clause, a second tag succeeds, links the file under both tags and keeps the original `.names` link |
| FuseTagger.AttrDict | tagger/fuse_tagger.py:175-177 | the attribute dictionary has exactly the eight `st_*` keys, each holding the stat record's field of that name |
| FuseTagger.StatAttrs | tagger/fuse_tagger.py:166-177 | fails exactly when `os.lstat` fails; otherwise the dictionary of the eight `st_*` fields of that `os.lstat` result |
| FuseTagger.Access | tagger/fuse_tagger.py:142-143 | every access check passes |
| FuseTagger.FusePathToReal | tagger/fuse_tagger.py:145-159 | raises `IndexError` exactly when the path has no "/"; otherwise `None` exactly when no file row has the basename, else `repository/<first piece>/<h[:2]>/<h + basename>` for a row named the basename |
| FuseTagger.RealPathIgnoresInnerTags | tagger/fuse_tagger.py:147-157 | the physical path depends only on the first piece and the basename |
| FuseTagger.Getattr | tagger/fuse_tagger.py:161-177 | "/" stats the repository; a basename that is a tag stats `repository/<basename>` whatever precedes it; any other path that `fuse_path_to_real` resolves stats that resolved link, at any depth; any other path without "/" raises `IndexError`; `{}` exactly for a path that is neither, has a "/" and names no known file; any other non-empty answer has exactly the eight `st_*` keys |
| FuseTagger.Readdir | tagger/fuse_tagger.py:179-187 | fails exactly when tag enumeration does; lists no tag of the path, only tags, and every other non-empty tag; files only for a path with segments, each the display name of an existing row |
| FuseTagger.ReaddirRoot | tagger/fuse_tagger.py:179-187 | listing "/" gives exactly all tags and no files |
| FuseTagger.ReaddirFilesExact | tagger/fuse_tagger.py:182-186 | over a valid index and distinct tags in the path, a display name is listed exactly when a file row with that name carries every tag of the path |
| FuseTagger.ReaddirNeverRepeatsTag | tagger/fuse_tagger.py:180 | after descending into a tag, that tag is not offered again |
| Agreement.TagDirSegments | tagger/fuse_tagger.py:179-186 | the path `/tag` splits into "" and the tag, and its only segment is the tag |
| Agreement.TagPathParts | tagger/fuse_tagger.py:147-148 | the path `/tag/name` splits into "", the tag and the name; its basename is the name |
| Agreement.LinkIsFound | tagger/tagutils.py:122-132 | any existing link under a tag is a match of the query of that tag alone; derived from `TagUtils.SingleTagQuery` |
| Agreement.TaggedFileIsFound | tagger/main.py:17-32 | after a successful `tag_file`, the single-tag query finds the file's link |
| Agreement.NamesLinkIsResolvable | tagger/tagutils.py:56-66 | a `.names` link `h + name` lies in an existing shard and has display part `name` and hash head `h`, which is what the name lookup searches for |
| Agreement.TaggedNameIsResolvable | tagger/main.py:35-43 | after a successful `tag_file`, the `.names` shard of the display name holds a link with that display part and the file's hash; this is the condition under which `TagUtils.FileFromFusePath` succeeds for any path with a "/" ending in that name |
| Agreement.ChangedOnlyKeepsLink | tagger/main.py:17-43 | a change confined to the two links of `tag_file` keeps every existing link and its shard directory |
| Agreement.ChangedOnlyKeepsMatches | tagger/tagutils.py:115-132 | such a change keeps every query match |
| Agreement.TaggingKeepsMatches | tagger/main.py:17-43 | tagging never hides a file from any query, whether or not it raised, both for the code as written and for the corrected `tag_file` |
| Agreement.TagPathToReal | tagger/fuse_tagger.py:145-157 | `/tag/name` resolves to `name`'s recorded hash linked under that tag |
| Agreement.TagPathAttrs | tagger/fuse_tagger.py:161-177 | `getattr("/tag/name")` for a recorded name that is not a tag stats that link |
| Agreement.TaggedFileResolves | tagger/main.py:17-32 | when the index resolves the display name to the file's hash, `/tag/name` resolves to the link `tag_file` created, and `getattr` stats it unless the name is a tag |
| Agreement.TaggedFileIsListed | tagger/sql.py:107-124 | after `file_tag(name, h, tag)` on a valid index, listing `/tag` shows the name the index keeps for `h`, which is `name` when `h` was new |

## Left out

- `Passthrough` (tagger/fuse_tagger.py:13-129): each method is a single `os` call with no logic of its own.
- `Tagger.open`, `read` and `release` (tagger/fuse_tagger.py:189-198): descriptor I/O. The stat values of `os.lstat` are opaque.
- `Tagger.__init__` and `main` (tagger/fuse_tagger.py:134-140, 204-208): mounting and argument handling.
- `get_db`, `get_connection` and `init` (tagger/sql.py:9-44): connection and schema bootstrap. The tables start empty (`Sql.EmptyDb`), and each `with get_connection` block is one atomic step.
- The debug `print` in `file_tag` (tagger/sql.py:123): output only.
- `tagger/hashutils.py`:
  - SHA-1 and the chunked stream reading are foreign calls and I/O;
  - the two hash functions are parameters returning 40-character lowercase hexadecimal digests;
  - opening the source file is assumed to succeed.
- Listing order and multiplicity. `os.listdir` results and the lists built from them are sets. `readdir`'s list becomes a pair of sets, and a name both tag and file appears once in each.
- `os.path.join` is modelled as concatenation with "/" (`Paths.Join`). This matches `os.path.join` for a repository path without a trailing "/" and relative components. For a repository path ending in "/" the code yields `repo/tag` while the model yields `repo//tag`; the two name the same directory.
- Stat fields are integers in the model. `st_atime`, `st_mtime` and `st_ctime` are floats in Python; the model never computes with them, so their values stay opaque.
- `.` and `..` path components: the code passes them on to the operating system, which resolves them; the model treats them as ordinary names.
- Tagging.Link: models only the failures that follow from the repository state (missing shard, taken name). Failures of `os.link` and `os.makedirs` that depend on the environment are outside the model: `EXDEV` for a source on another filesystem, `EACCES` or `EPERM` for missing permissions, a full disk. So "succeeds exactly when" in `Tagging.Link`, `Tagging.PlaceAndPrepare`, `Tagging.TagFileAsWritten` and `Tagging.TagFile` holds only for an environment where these calls fail for no other reason. In the code such a failure raises after `os.makedirs` may already have created the shard.
- Tagging.TagFile: requires the tag to be a valid path component (non-empty, without "/", not "." or ".."), and so do `Tagging.TagFileAsWritten` and `Tagging.PlaceAndPrepare`. For other tags `os.path.join` and `os.makedirs` do not create a directory named by the tag. The tag "" puts the shard at the top level, "a/b" nests directories, and an absolute tag leaves the repository. The model does not promise anything for such tags.
- Display names containing "/": the lemmas relating FUSE paths to files require valid path components.
- FuseTagger.FusePathToReal: states that the hash comes from some row named the basename, not that it is the first such row; `Sql.FileGetHash`, which it calls, states the first row.
- Sql.GetTaggedFiles: its own contract is only the empty case and row membership. The exact characterisation is `Sql.GetTaggedFilesExact` and `Sql.GetTaggedFilesRepeated`, which need the uniqueness invariant `Sql.Valid`.
- Sql tables: ids are positions, so SQLite's rowid reuse after deletion is outside the model. Nothing in the core deletes rows.

## Findings

| source | as written | input that shows it | evidently intended | confidence | as-written member | corrected member |
|---|---|---|---|---|---|---|
| tagger/main.py:40-43 | `except os.FileExistsError:` names an attribute the `os` module does not have. Evaluating the clause after `os.link` fails raises `AttributeError` instead of swallowing the error | tag a file with `a`, then tag the same file with `b`: the `.names` link already exists, so the second call raises `AttributeError` after creating the `b` link | `except FileExistsError: pass`: an existing `.names` link is accepted | not executed | Tagging.RetagAsWrittenRaises | Tagging.RetagSucceeds |
