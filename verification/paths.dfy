/** String and path helpers with Python's semantics: slicing (`s[:n]`,
    `s[n:]`), `str.split('/')`, `os.path.basename`, `os.path.join` (as
    concatenation with "/"), and the 40-character hex digests that
    prefix every link name. */
module Paths {

  type Name = string

  /** Python's `s[:n]` for n >= 0: never fails, clamps at the end. */
  function Take(s: string, n: nat): (r: string)
    ensures |r| == if |s| < n then |s| else n
    ensures r <= s
  {
    if |s| <= n then s else s[..n]
  }

  /** Python's `s[n:]` for n >= 0: what `Take(s, n)` leaves over. */
  function Drop(s: string, n: nat): (r: string)
    ensures Take(s, n) + r == s
    ensures |r| == if |s| < n then 0 else |s| - n
  {
    if |s| <= n then "" else s[n..]
  }

  /** Length of a SHA-1 hex digest, the width of the hash head of a link name. */
  const DigestLength: nat := 40

  /** Length of the shard key, the directory level below a tag. */
  const ShardKeyLength: nat := 2

  predicate IsHexDigit(c: char) {
    '0' <= c <= '9' || 'a' <= c <= 'f'
  }

  /** A `hexdigest()` of SHA-1: 40 lower-case hex characters. */
  type Digest = s: string | |s| == DigestLength && forall i | 0 <= i < |s| :: IsHexDigit(s[i])
    witness "0000000000000000000000000000000000000000"

  /** `x[:40]`: the hash part of a link name `hash + display_name`. */
  function HashHead(linkName: Name): Name {
    Take(linkName, DigestLength)
  }

  /** `x[40:]`: the display-name part of a link name. */
  function DisplayPart(linkName: Name): Name {
    Drop(linkName, DigestLength)
  }

  /** `h[:2]`: the shard directory a hash is placed under. */
  function ShardKey(h: string): Name {
    Take(h, ShardKeyLength)
  }

  /** A link name is split back into the digest and the display name it
      was built from (main.py builds it, tagutils.py takes it apart). */
  lemma HashedNameRoundTrip(h: Digest, displayName: string)
    ensures HashHead(h + displayName) == h
    ensures DisplayPart(h + displayName) == displayName
  {
    assert (h + displayName)[..DigestLength] == h;
  }

  /** A single path component as the operating system stores it in a
      directory: non-empty, no separator, and not a self/parent alias. */
  predicate ValidName(n: string) {
    n != "" && '/' !in n && n != "." && n != ".."
  }

  /** A digest never contains the separator, so `h + name` is a valid
      link name and `h[:2]` a valid shard directory. */
  lemma DigestNames(h: Digest, n: string)
    requires ValidName(n)
    ensures ValidName(h + n)
    ensures ValidName(ShardKey(h))
  {
    assert IsHexDigit(h[0]) && IsHexDigit(h[1]);
    assert ShardKey(h) == [h[0], h[1]];
    forall i | 0 <= i < |h + n|
      ensures (h + n)[i] != '/'
    {
      if i < |h| {
        assert IsHexDigit(h[i]);
      } else {
        assert (h + n)[i] == n[i - |h|] && n[i - |h|] in n;
      }
    }
  }

  /** `os.path.join(a, b)` for a relative component `b`. */
  function Join(a: string, b: string): string {
    a + "/" + b
  }

  /** `"/".join(parts)`. */
  function JoinAll(parts: seq<string>): string
    requires |parts| >= 1
    decreases |parts|
  {
    if |parts| == 1 then parts[0] else parts[0] + "/" + JoinAll(parts[1..])
  }

  /** `s.split('/')`: the maximal separator-free pieces, empty ones included,
      so that joining them with "/" gives `s` back. */
  function Split(s: string): (parts: seq<string>)
    ensures |parts| >= 1
    ensures forall i | 0 <= i < |parts| :: '/' !in parts[i]
    ensures JoinAll(parts) == s
    ensures |parts| == 1 <==> '/' !in s
    decreases |s|
  {
    if |s| == 0 then
      [""]
    else
      var rest := Split(s[1..]);
      if s[0] == '/' then
        assert ([""] + rest)[1..] == rest;
        [""] + rest
      else
        var parts := [[s[0]] + rest[0]] + rest[1..];
        assert parts[1..] == rest[1..];
        assert JoinAll(parts) == [s[0]] + JoinAll(rest) by {
          if |rest| > 1 {
            assert JoinAll(rest) == rest[0] + "/" + JoinAll(rest[1..]);
          }
        }
        assert s == [s[0]] + s[1..];
        parts
  }

  /** The other round trip: splitting a join of separator-free pieces
      gives back the same pieces. */
  lemma {:induction false} SplitJoinAll(parts: seq<string>)
    requires |parts| >= 1
    requires forall i | 0 <= i < |parts| :: '/' !in parts[i]
    ensures Split(JoinAll(parts)) == parts
    decreases |parts|
  {
    if |parts| == 1 {
      SplitNoSeparator(parts[0]);
    } else {
      SplitJoinAll(parts[1..]);
      SplitAfterSeparator(parts[0], JoinAll(parts[1..]));
    }
  }

  /** A separator-free string splits into itself. */
  lemma {:induction false} SplitNoSeparator(s: string)
    requires '/' !in s
    ensures Split(s) == [s]
  {
  }

  /** Splitting `a + "/" + b` for separator-free `a`. */
  lemma {:induction false} SplitAfterSeparator(a: string, b: string)
    requires '/' !in a
    ensures Split(a + "/" + b) == [a] + Split(b)
    decreases |a|
  {
    if |a| == 0 {
      assert (a + "/" + b)[1..] == b;
    } else {
      var s := a + "/" + b;
      assert s[0] == a[0] && s[0] != '/';
      assert s[1..] == a[1..] + "/" + b;
      SplitAfterSeparator(a[1..], b);
      var rest := Split(s[1..]);
      assert rest[0] == a[1..] && rest[1..] == Split(b);
      assert [s[0]] + rest[0] == a;
      assert Split(s) == [[s[0]] + rest[0]] + rest[1..];
    }
  }

  /** Appending a separator and a separator-free component appends exactly
      one piece to the split. */
  lemma {:induction false} SplitAppend(q: string, t: string)
    requires '/' !in t
    ensures Split(q + "/" + t) == Split(q) + [t]
    decreases |q|
  {
    if |q| == 0 {
      assert q + "/" + t == "/" + t;
      assert ("/" + t)[1..] == t;
      SplitNoSeparator(t);
    } else {
      assert (q + "/" + t)[1..] == q[1..] + "/" + t;
      SplitAppend(q[1..], t);
    }
  }

  /** `os.path.basename(p)`: the part after the last separator. */
  function Basename(p: string): (b: string)
    ensures '/' !in b
    ensures |b| <= |p| && p[|p| - |b|..] == b
    ensures |b| < |p| ==> p[|p| - |b| - 1] == '/'
    decreases |p|
  {
    if |p| == 0 then ""
    else if p[|p| - 1] == '/' then ""
    else
      var init := p[..|p| - 1];
      var b := Basename(init);
      assert p[|p| - |b| - 1..] == init[|init| - |b|..] + [p[|p| - 1]];
      b + [p[|p| - 1]]
  }

  /** The basename of separator-free pieces joined with "/" is the last
      piece; with the round trip of `Split`, the basename of a path is the
      last piece of its split, so the two views of a path used by
      fuse_tagger.py name the same final component. */
  lemma BasenameOfJoin(parts: seq<string>, p: string)
    requires |parts| >= 1
    requires forall i | 0 <= i < |parts| :: '/' !in parts[i]
    requires JoinAll(parts) == p
    ensures Basename(p) == parts[|parts| - 1]
  {
    JoinAllLast(parts);
    SeparatorFreeSuffixUnique(p, Basename(p), parts[|parts| - 1]);
  }

  /** `"/".join(parts)` ends with its last piece, preceded by "/" when
      there is more than one piece. */
  lemma {:induction false} JoinAllLast(parts: seq<string>)
    requires |parts| >= 1
    ensures var last := parts[|parts| - 1];
            var j := JoinAll(parts);
            |last| <= |j| && j[|j| - |last|..] == last &&
            (|parts| > 1 ==> |last| < |j| && j[|j| - |last| - 1] == '/')
    decreases |parts|
  {
    if |parts| > 1 {
      JoinAllLast(parts[1..]);
      var rest := JoinAll(parts[1..]);
      assert JoinAll(parts) == parts[0] + "/" + rest;
      if |parts| == 2 {
        assert rest == parts[1];
      }
    }
  }

  /** Two separator-free suffixes that each reach the start or a separator
      are the same suffix. */
  lemma SeparatorFreeSuffixUnique(p: string, b1: string, b2: string)
    requires '/' !in b1 && '/' !in b2
    requires |b1| <= |p| && p[|p| - |b1|..] == b1 && (|b1| < |p| ==> p[|p| - |b1| - 1] == '/')
    requires |b2| <= |p| && p[|p| - |b2|..] == b2 && (|b2| < |p| ==> p[|p| - |b2| - 1] == '/')
    ensures b1 == b2
  {
  }

  /** `[x for x in parts if x != '']`, order kept. */
  function NonEmpty(parts: seq<string>): (r: seq<string>)
    ensures forall x :: x in r <==> x in parts && x != ""
  {
    if |parts| == 0 then []
    else if parts[0] == "" then NonEmpty(parts[1..])
    else [parts[0]] + NonEmpty(parts[1..])
  }

  /** The filter keeps every non-empty piece as often as it occurs, so a
      query has as many tags as its path has non-empty pieces. */
  lemma {:induction false} NonEmptyCounts(parts: seq<string>)
    ensures multiset(NonEmpty(parts)) == multiset(parts)["" := 0]
    decreases |parts|
  {
    if |parts| > 0 {
      assert parts == [parts[0]] + parts[1..];
      NonEmptyCounts(parts[1..]);
    }
  }

  /** The filter starts with the first non-empty piece, which is the tag
      whose links a query returns. */
  lemma {:induction false} NonEmptyFirst(parts: seq<string>)
    ensures |NonEmpty(parts)| > 0 ==> exists i | 0 <= i < |parts| ::
      parts[i] == NonEmpty(parts)[0] && forall j | 0 <= j < i :: parts[j] == ""
    decreases |parts|
  {
    if |parts| > 0 && parts[0] == "" && |NonEmpty(parts)| > 0 {
      var rest := parts[1..];
      NonEmptyFirst(rest);
      var i :| 0 <= i < |rest| && rest[i] == NonEmpty(rest)[0] && forall j | 0 <= j < i :: rest[j] == "";
      assert parts[i + 1] == NonEmpty(parts)[0];
    }
  }

  /** Filtering one piece keeps it exactly when it is non-empty; with
      `NonEmptyAppend` this fixes the filter on every sequence. */
  lemma NonEmptySingle(x: string)
    ensures NonEmpty([x]) == if x == "" then [] else [x]
  {
    assert [x][1..] == [];
  }

  lemma {:induction false} NonEmptyAppend(a: seq<string>, b: seq<string>)
    ensures NonEmpty(a + b) == NonEmpty(a) + NonEmpty(b)
    decreases |a|
  {
    if |a| > 0 {
      assert (a + b)[1..] == a[1..] + b;
      NonEmptyAppend(a[1..], b);
    } else {
      assert a + b == b;
    }
  }

  /** The tag sequence a FUSE path denotes: its non-empty components. */
  function Segments(p: string): (tags: seq<Name>)
    ensures forall i | 0 <= i < |tags| :: tags[i] != "" && '/' !in tags[i]
    ensures forall x :: x in tags <==> x in Split(p) && x != ""
  {
    var parts := Split(p);
    var tags := NonEmpty(parts);
    assert forall i | 0 <= i < |tags| :: tags[i] in parts;
    tags
  }

  /** A path's tags are its non-empty pieces, each as often as it occurs,
      and the first tag is the first non-empty piece. */
  lemma SegmentsCounts(p: string)
    ensures multiset(Segments(p)) == multiset(Split(p))["" := 0]
    ensures |Segments(p)| > 0 ==> exists i | 0 <= i < |Split(p)| ::
      Split(p)[i] == Segments(p)[0] && forall j | 0 <= j < i :: Split(p)[j] == ""
  {
    NonEmptyCounts(Split(p));
    NonEmptyFirst(Split(p));
  }

  /** Descending one directory deeper appends exactly that tag to the
      query, which is what makes deeper listings narrower. */
  lemma SegmentsOfJoin(q: string, t: string)
    requires ValidName(t)
    ensures Segments(Join(q, t)) == Segments(q) + [t]
  {
    SplitAppend(q, t);
    NonEmptyAppend(Split(q), [t]);
    assert NonEmpty([t]) == [t] by {
      assert [t][1..] == [];
    }
  }

  /** The root path has no segments. */
  lemma SegmentsOfRoot()
    ensures Segments("/") == []
  {
    assert "/"[1..] == "";
    assert Split("/") == ["", ""];
  }
}
