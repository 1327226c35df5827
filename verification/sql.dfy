/** The relational index (tagger/sql.py): the `file`, `tag` and
    `file_tag` tables as values, each `with get_connection` block as one
    atomic step. A table is kept in rowid order and a row's id is its
    position, so an inserted row always receives a fresh id, and the row
    a `SELECT ... WHERE col = ?` followed by `fetchone()` returns is the
    first matching one. */
module Sql {
  import opened Outcomes

  type Id = nat

  datatype FileRow = FileRow(name: string, hash: string)

  /** `files` is the `file` table, `tags` the `tag` table (a row is its
      name), `fileTag` the `file_tag` table of (file id, tag id) pairs,
      whose primary key makes it a set. */
  datatype Db = Db(files: seq<FileRow>, tags: seq<string>, fileTag: set<(Id, Id)>)

  /** The empty schema created by `init`. */
  const EmptyDb := Db([], [], {})

  /** The first position holding `x`, if any. */
  function FirstIndex<T(==)>(s: seq<T>, x: T): (r: Option<Id>)
    ensures r.None? <==> x !in s
    ensures r.Some? ==> r.value < |s| && s[r.value] == x && x !in s[..r.value]
  {
    if |s| == 0 then None
    else if s[|s| - 1] in s[..|s| - 1] then
      assert s[..|s| - 1][..|s| - 1] == s[..|s| - 1];
      FirstIndex(s[..|s| - 1], x)
    else if s[|s| - 1] == x then
      Some(|s| - 1)
    else
      assert s == s[..|s| - 1] + [s[|s| - 1]];
      var r := FirstIndex(s[..|s| - 1], x);
      assert r.Some? ==> s[..r.value] == s[..|s| - 1][..r.value];
      r
  }

  /** The `hash` column in rowid order. */
  function HashColumn(db: Db): (c: seq<string>)
    ensures |c| == |db.files| && forall k | 0 <= k < |c| :: c[k] == db.files[k].hash
  {
    seq(|db.files|, k requires 0 <= k < |db.files| => db.files[k].hash)
  }

  /** The `name` column of `file` in rowid order. */
  function NameColumn(db: Db): (c: seq<string>)
    ensures |c| == |db.files| && forall k | 0 <= k < |c| :: c[k] == db.files[k].name
  {
    seq(|db.files|, k requires 0 <= k < |db.files| => db.files[k].name)
  }

  /** `tag_exists`: some tag row has this name. */
  function TagExists(db: Db, t: string): (b: bool)
    ensures b <==> exists id | 0 <= id < |db.tags| :: db.tags[id] == t
  {
    FirstIndex(db.tags, t).Some?
  }

  /** `tag_get_id`: the id of the first tag row with this name;
      `fetchone()[0]` raises `TypeError` when there is none. */
  function TagGetId(db: Db, t: string): (r: Result<Id>)
    ensures r.Ok? <==> TagExists(db, t)
    ensures r.Ok? ==> r.value < |db.tags| && db.tags[r.value] == t
    ensures r.Ok? ==> forall id | 0 <= id < r.value :: db.tags[id] != t
  {
    match FirstIndex(db.tags, t)
    case None => Err(TypeError)
    case Some(id) =>
      assert forall j | 0 <= j < id :: db.tags[j] == db.tags[..id][j];
      Ok(id)
  }

  /** `tag_add`: an unguarded insert; the new row takes the next fresh id. */
  function TagAdd(db: Db, t: string): (r: Db)
    ensures |r.tags| == |db.tags| + 1 && r.tags[|db.tags|] == t
    ensures forall id | 0 <= id < |db.tags| :: r.tags[id] == db.tags[id]
    ensures r.files == db.files && r.fileTag == db.fileTag
    ensures !TagExists(db, t) ==> TagGetId(r, t) == Ok(|db.tags|)
  {
    Db(db.files, db.tags + [t], db.fileTag)
  }

  /** `file_exists`: some file row has this hash. */
  function FileExists(db: Db, h: string): (b: bool)
    ensures b <==> exists k | 0 <= k < |db.files| :: db.files[k].hash == h
  {
    FirstIndex(HashColumn(db), h).Some?
  }

  /** `file_get_id`: the id of the first file row with this hash;
      `TypeError` when there is none. */
  function FileGetId(db: Db, h: string): (r: Result<Id>)
    ensures r.Ok? <==> FileExists(db, h)
    ensures r.Ok? ==> r.value < |db.files| && db.files[r.value].hash == h
    ensures r.Ok? ==> forall k | 0 <= k < r.value :: db.files[k].hash != h
  {
    var column := HashColumn(db);
    match FirstIndex(column, h)
    case None => Err(TypeError)
    case Some(k) =>
      assert forall j | 0 <= j < k :: column[j] == column[..k][j];
      Ok(k)
  }

  /** `file_add`: an unguarded insert; the new row takes the next fresh id. */
  function FileAdd(db: Db, name: string, h: string): (r: Db)
    ensures |r.files| == |db.files| + 1 && r.files[|db.files|] == FileRow(name, h)
    ensures forall k | 0 <= k < |db.files| :: r.files[k] == db.files[k]
    ensures r.tags == db.tags && r.fileTag == db.fileTag
    ensures !FileExists(db, h) ==> FileGetId(r, h) == Ok(|db.files|)
  {
    Db(db.files + [FileRow(name, h)], db.tags, db.fileTag)
  }

  /** `file_get_hash`: the hash of the first file row with this name, or
      `None` when no row has it. */
  function FileGetHash(db: Db, name: string): (r: Option<string>)
    ensures r.None? <==> forall k | 0 <= k < |db.files| :: db.files[k].name != name
    ensures r.Some? ==> exists k | 0 <= k < |db.files| ::
      db.files[k] == FileRow(name, r.value)
      && forall j | 0 <= j < k :: db.files[j].name != name
  {
    var column := NameColumn(db);
    match FirstIndex(column, name)
    case None =>
      assert forall k | 0 <= k < |db.files| :: column[k] in column;
      None
    case Some(k) =>
      assert forall j | 0 <= j < k :: column[j] == column[..k][j];
      assert db.files[k] == FileRow(name, db.files[k].hash);
      Some(db.files[k].hash)
  }

  /** File row `fid` carries tag row `tid` in the `file_tag` table. */
  predicate Linked(db: Db, fid: Id, tid: Id) {
    (fid, tid) in db.fileTag
  }

  /** `file_tagged`: the three-way join has a row for this hash and tag
      name. Over a valid index this is exactly the association of the ids
      `file_get_id` and `tag_get_id` return, which `file_tag` inserts. */
  function FileTagged(db: Db, h: string, t: string): (b: bool)
    ensures b ==> FileExists(db, h) && TagExists(db, t)
    ensures Valid(db) ==>
      (b <==> FileGetId(db, h).Ok? && TagGetId(db, t).Ok? && Linked(db, FileGetId(db, h).value, TagGetId(db, t).value))
  {
    exists e | e in db.fileTag ::
      e.0 < |db.files| && db.files[e.0].hash == h && e.1 < |db.tags| && db.tags[e.1] == t
  }

  /** The display name of the row a hash resolves to. */
  function NameOfHash(db: Db, h: string): Option<string> {
    match FileGetId(db, h)
    case Ok(k) => Some(db.files[k].name)
    case Err(_) => None
  }

  /** `file_tag`: add the file row if its hash is new, the tag row if its
      name is new, and the association if the join does not already have
      it. The association insert would violate the `file_tag` primary key
      only if the pair were already present. */
  function FileTag(db: Db, name: string, h: string, t: string): (r: Result<Db>)
    ensures r.Ok?
    ensures FileTagged(r.value, h, t)
    // append-only: every row and association is kept, each table gains at most one row
    ensures db.files <= r.value.files && |r.value.files| <= |db.files| + 1
    ensures db.tags <= r.value.tags && |r.value.tags| <= |db.tags| + 1
    ensures db.fileTag <= r.value.fileTag && |r.value.fileTag| <= |db.fileTag| + 1
    // an association only when the join does not already have one
    ensures FileTagged(db, h, t) ==> r.value.fileTag == db.fileTag
    // a file row only for a new hash: the first writer's display name wins
    ensures FileExists(db, h) ==> r.value.files == db.files && NameOfHash(r.value, h) == NameOfHash(db, h)
    ensures !FileExists(db, h) ==> NameOfHash(r.value, h) == Some(name)
    // a tag row only for a new name
    ensures TagExists(db, t) ==> r.value.tags == db.tags
    ensures !TagExists(db, t) ==> r.value.tags == db.tags + [t]
  {
    var db1 := if FileExists(db, h) then db else FileAdd(db, name, h);
    var db2 := if TagExists(db1, t) then db1 else TagAdd(db1, t);
    if FileTagged(db2, h, t) then
      Ok(db2)
    else
      match (TagGetId(db2, t), FileGetId(db2, h))
      case (Ok(tid), Ok(fid)) =>
        if (fid, tid) in db2.fileTag then
          Err(IntegrityError)
        else
          Ok(db2.(fileTag := db2.fileTag + {(fid, tid)}))
      case _ =>
        // both rows were ensured above, so neither lookup raises
        assert false; Err(TypeError)
  }

  /** A second identical call changes nothing in any table. */
  lemma FileTagIdempotent(db: Db, name: string, h: string, t: string)
    ensures var once := FileTag(db, name, h, t).value;
      FileTag(once, name, h, t) == Ok(once)
  {
    var once := FileTag(db, name, h, t).value;
    assert FileExists(once, h);
    assert TagExists(once, t);
  }

  /** The uniqueness the relational index relies on: one file row per
      hash, one tag row per name, and associations between existing rows. */
  predicate Valid(db: Db) {
    && (forall i, j | 0 <= i < j < |db.files| :: db.files[i].hash != db.files[j].hash)
    && (forall i, j | 0 <= i < j < |db.tags| :: db.tags[i] != db.tags[j])
    && (forall e | e in db.fileTag :: e.0 < |db.files| && e.1 < |db.tags|)
  }

  lemma EmptyDbValid()
    ensures Valid(EmptyDb)
  {
  }

  /** `file_tag` keeps the uniqueness invariants of the index. */
  lemma FileTagKeepsValid(db: Db, name: string, h: string, t: string)
    requires Valid(db)
    ensures Valid(FileTag(db, name, h, t).value)
  {
    var db1 := if FileExists(db, h) then db else FileAdd(db, name, h);
    if !FileExists(db, h) {
      FileAddKeepsValid(db, name, h);
    }
    var db2 := if TagExists(db1, t) then db1 else TagAdd(db1, t);
    if !TagExists(db1, t) {
      TagAddKeepsValid(db1, t);
    }
    if !FileTagged(db2, h, t) {
      var tid := TagGetId(db2, t).value;
      var fid := FileGetId(db2, h).value;
      AssociateKeepsValid(db2, fid, tid);
      assert FileTag(db, name, h, t).value == db2.(fileTag := db2.fileTag + {(fid, tid)});
    }
  }

  /** Recording an association between existing rows keeps the index valid. */
  lemma AssociateKeepsValid(db: Db, fid: Id, tid: Id)
    requires Valid(db)
    requires fid < |db.files| && tid < |db.tags|
    ensures Valid(db.(fileTag := db.fileTag + {(fid, tid)}))
  {
  }

  lemma FileAddKeepsValid(db: Db, name: string, h: string)
    requires Valid(db)
    requires !FileExists(db, h)
    ensures Valid(FileAdd(db, name, h))
  {
    var r := FileAdd(db, name, h);
    forall i, j | 0 <= i < j < |r.files|
      ensures r.files[i].hash != r.files[j].hash
    {
      if j == |db.files| {
        assert r.files[i] == db.files[i];
      } else {
        assert r.files[i] == db.files[i] && r.files[j] == db.files[j];
      }
    }
  }

  lemma TagAddKeepsValid(db: Db, t: string)
    requires Valid(db)
    requires !TagExists(db, t)
    ensures Valid(TagAdd(db, t))
  {
    var r := TagAdd(db, t);
    forall i, j | 0 <= i < j < |r.tags|
      ensures r.tags[i] != r.tags[j]
    {
      if j == |db.tags| {
        assert r.tags[i] == db.tags[i];
      } else {
        assert r.tags[i] == db.tags[i] && r.tags[j] == db.tags[j];
      }
    }
  }

  /** `[x for x in s]` as a set. */
  function ToSet<T>(s: seq<T>): set<T> {
    set x | x in s
  }

  /** No name occurs twice in the query. */
  predicate Distinct<T(==)>(s: seq<T>) {
    forall i, j | 0 <= i < j < |s| :: s[i] != s[j]
  }

  /** The tag ids counted by `count(distinct t.id)` for the group of rows
      whose (name, hash) is `row`, restricted to tag names in `tags`. */
  function GroupTagIds(db: Db, row: FileRow, tags: seq<string>): set<Id> {
    set e | e in db.fileTag && e.0 < |db.files| && db.files[e.0] == row
                            && e.1 < |db.tags| && db.tags[e.1] in tags :: e.1
  }

  /** `get_tagged_files`: the (name, hash) groups whose number of distinct
      matching tag ids equals the number of query names. No names give []. */
  function GetTaggedFiles(db: Db, tags: seq<string>): (r: set<(string, string)>)
    ensures tags == [] ==> r == {}
    ensures forall p | p in r :: exists k | 0 <= k < |db.files| :: db.files[k] == FileRow(p.0, p.1)
  {
    if |tags| == 0 then {}
    else
      set k | 0 <= k < |db.files| && |GroupTagIds(db, db.files[k], tags)| == |tags|
        :: (db.files[k].name, db.files[k].hash)
  }

  /** File row `k` carries a tag row named `t`. */
  ghost predicate Carries(db: Db, k: Id, t: string) {
    exists tid | 0 <= tid < |db.tags| :: db.tags[tid] == t && Linked(db, k, tid)
  }

  /** The intended answer: the files that carry every tag of the query. */
  ghost predicate TaggedWithAll(db: Db, k: Id, tags: seq<string>) {
    k < |db.files| && forall i | 0 <= i < |tags| :: Carries(db, k, tags[i])
  }

  /** After `file_tag(name, h, t)` on a valid index, the row that `h`
      resolves to carries `t`. */
  lemma FileTagCarries(db: Db, name: string, h: string, t: string) returns (k: Id)
    requires Valid(db)
    ensures var after := FileTag(db, name, h, t).value;
      && FileGetId(after, h) == Ok(k)
      && TaggedWithAll(after, k, [t])
      && NameOfHash(after, h) == Some(after.files[k].name)
  {
    var after := FileTag(db, name, h, t).value;
    FileTagKeepsValid(db, name, h, t);
    var fid: Id, tid: Id :| Linked(after, fid, tid)
      && fid < |after.files| && after.files[fid].hash == h && tid < |after.tags| && after.tags[tid] == t;
    assert Carries(after, fid, t);
    k := FileGetId(after, h).value;
    assert k == fid;
  }

  /** For a query of distinct names over a valid index, the count check
      selects exactly the files carrying every listed tag. */
  lemma GetTaggedFilesExact(db: Db, tags: seq<string>, name: string, h: string)
    requires Valid(db)
    requires tags != [] && Distinct(tags)
    ensures (name, h) in GetTaggedFiles(db, tags)
        <==> exists k | 0 <= k < |db.files| :: db.files[k] == FileRow(name, h) && TaggedWithAll(db, k, tags)
  {
    if (name, h) in GetTaggedFiles(db, tags) {
      var k :| 0 <= k < |db.files| && |GroupTagIds(db, db.files[k], tags)| == |tags|
                && (db.files[k].name, db.files[k].hash) == (name, h);
      GroupCountMeansAll(db, k, tags);
      assert db.files[k] == FileRow(name, h);
    }
    if k :| 0 <= k < |db.files| && db.files[k] == FileRow(name, h) && TaggedWithAll(db, k, tags) {
      GroupCountMeansAll(db, k, tags);
      assert (db.files[k].name, db.files[k].hash) in GetTaggedFiles(db, tags);
    }
  }

  /** A query naming some tag twice matches nothing over a valid index:
      the distinct tag ids can never be as many as the listed names. */
  lemma GetTaggedFilesRepeated(db: Db, tags: seq<string>)
    requires Valid(db)
    requires !Distinct(tags)
    ensures GetTaggedFiles(db, tags) == {}
  {
    SetOfSeqCard(tags);
    forall k | 0 <= k < |db.files|
      ensures |GroupTagIds(db, db.files[k], tags)| < |tags|
    {
      var ids := GroupTagIds(db, db.files[k], tags);
      var names := set id | id in ids :: db.tags[id];
      InjectiveImageCard(db, ids);
      assert names <= ToSet(tags);
      SubsetCard(names, ToSet(tags));
    }
  }

  /** The heart of the count check: in a valid index, the group of file
      row `k` reaches `|tags|` distinct tag ids exactly when the row
      carries every (distinct) name of the query. */
  lemma GroupCountMeansAll(db: Db, k: Id, tags: seq<string>)
    requires Valid(db)
    requires Distinct(tags)
    requires k < |db.files|
    ensures |GroupTagIds(db, db.files[k], tags)| == |tags| <==> TaggedWithAll(db, k, tags)
  {
    var ids := GroupTagIds(db, db.files[k], tags);
    var names := set id | id in ids :: db.tags[id];
    var wanted := ToSet(tags);
    SetOfSeqCard(tags);
    InjectiveImageCard(db, ids);
    assert names <= wanted;
    SubsetCard(names, wanted);
    forall id | id in ids
      ensures Linked(db, k, id)
    {
      var e :| e in db.fileTag && e.0 < |db.files| && db.files[e.0] == db.files[k]
               && e.1 < |db.tags| && db.tags[e.1] in tags && e.1 == id;
      assert e.0 == k;
    }
    if |ids| == |tags| {
      assert names == wanted;
      forall i | 0 <= i < |tags|
        ensures Carries(db, k, tags[i])
      {
        assert tags[i] in names;
        var id :| id in ids && db.tags[id] == tags[i];
        assert Linked(db, k, id);
      }
    }
    if TaggedWithAll(db, k, tags) {
      forall t | t in wanted
        ensures t in names
      {
        var i :| 0 <= i < |tags| && tags[i] == t;
        assert Carries(db, k, tags[i]);
        var tid :| 0 <= tid < |db.tags| && db.tags[tid] == t && Linked(db, k, tid);
        assert tid in ids;
      }
      assert names == wanted;
    }
  }

  /** Distinct tag ids of a valid index have distinct names. */
  lemma InjectiveImageCard(db: Db, ids: set<Id>)
    requires Valid(db)
    requires forall id | id in ids :: id < |db.tags|
    ensures |set id | id in ids :: db.tags[id]| == |ids|
    decreases |ids|
  {
    if ids != {} {
      var x :| x in ids;
      var rest := ids - {x};
      InjectiveImageCard(db, rest);
      var restNames := set id | id in rest :: db.tags[id];
      assert (set id | id in ids :: db.tags[id]) == restNames + {db.tags[x]};
      assert db.tags[x] !in restNames;
    }
  }

  /** A subset is no larger, and a subset of equal size is the whole set. */
  lemma SubsetCard<T>(a: set<T>, b: set<T>)
    requires a <= b
    ensures |a| <= |b|
    ensures |a| == |b| ==> a == b
  {
    assert b == a + (b - a);
    assert a * (b - a) == {};
  }

  /** A sequence has at most as many distinct elements as entries, and
      exactly as many when no element repeats. */
  lemma {:induction false} SetOfSeqCard<T>(s: seq<T>)
    ensures |ToSet(s)| <= |s|
    ensures |ToSet(s)| == |s| <==> Distinct(s)
    decreases |s|
  {
    if |s| > 0 {
      var init := s[..|s| - 1];
      var last := s[|s| - 1];
      SetOfSeqCard(init);
      assert s == init + [last];
      assert ToSet(s) == ToSet(init) + {last};
      if last in init {
        assert ToSet(s) == ToSet(init);
        var j :| 0 <= j < |init| && init[j] == last;
        assert s[j] == s[|s| - 1];
      } else {
        assert last !in ToSet(init);
        if Distinct(init) {
          forall i, j | 0 <= i < j < |s|
            ensures s[i] != s[j]
          {
            if j == |s| - 1 {
              assert s[i] == init[i];
            } else {
              assert s[i] == init[i] && s[j] == init[j];
            }
          }
        }
        if Distinct(s) {
          forall i, j | 0 <= i < j < |init|
            ensures init[i] != init[j]
          {
            assert init[i] == s[i] && init[j] == s[j];
          }
        }
      }
    }
  }
}
