/** The checksum index of an application backup, and its comparison with the payload that was read. */
module Checksums {
  import opened Paths
  import opened Sets

  datatype ChecksumEntry = ChecksumEntry(path: string, digest: string, size: int, mode: nat, uid: int, gid: int)
  datatype ChecksumIndex = ChecksumIndex(algorithm: string, files: seq<ChecksumEntry>)

  const ALGORITHM: string := "sha256"

  predicate HexDigit(c: char) { '0' <= c <= '9' || 'a' <= c <= 'f' || 'A' <= c <= 'F' }
  predicate Digest(s: string) { |s| == 64 && forall i :: 0 <= i < |s| ==> HexDigit(s[i]) }

  /** The fields the verification compares. */
  predicate Matches(got: ChecksumEntry, item: ChecksumEntry) {
    got.digest == item.digest && got.size == item.size && got.mode == item.mode && got.uid == item.uid && got.gid == item.gid
  }

  /** An index entry that names an observed file and describes it. */
  predicate Describes(item: ChecksumEntry, observed: map<string, ChecksumEntry>) {
    Canonical(item.path) && Digest(item.digest) && item.path in observed && Matches(observed[item.path], item)
  }

  ghost predicate DistinctPaths(files: seq<ChecksumEntry>) {
    forall i, j :: 0 <= i < j < |files| ==> files[i].path != files[j].path
  }

  ghost function PathsOf(files: seq<ChecksumEntry>): set<string> { set i | 0 <= i < |files| :: files[i].path }

  /** The index and the observed payload are in one-to-one agreement. */
  ghost predicate Agrees(index: ChecksumIndex, observed: map<string, ChecksumEntry>) {
    && index.algorithm == ALGORITHM
    && (forall i :: 0 <= i < |index.files| ==> Describes(index.files[i], observed))
    && DistinctPaths(index.files)
    && PathsOf(index.files) == observed.Keys
  }

  lemma PathsExtend(files: seq<ChecksumEntry>)
    requires files != []
    ensures PathsOf(files) == PathsOf(files[..|files| - 1]) + {files[|files| - 1].path}
  {
    var n := |files| - 1;
    assert files == files[..n] + [files[n]];
  }

  lemma {:induction false} DistinctCount(files: seq<ChecksumEntry>)
    requires DistinctPaths(files)
    ensures |PathsOf(files)| == |files|
  {
    if files != [] {
      DistinctCount(files[..|files| - 1]);
      PathsExtend(files);
    }
  }

  /** One more entry keeps the paths distinct exactly when its path is new. */
  lemma Extends(files: seq<ChecksumEntry>, k: nat)
    requires k < |files|
    ensures PathsOf(files[..k + 1]) == PathsOf(files[..k]) + {files[k].path}
    ensures DistinctPaths(files[..k + 1]) <==> DistinctPaths(files[..k]) && files[k].path !in PathsOf(files[..k])
    ensures DistinctPaths(files) ==> DistinctPaths(files[..k + 1])
  {
    var some := files[..k + 1];
    assert some[..k] == files[..k] && some[k] == files[k];
    PathsExtend(some);
    assert forall i :: 0 <= i < k ==> some[i] == files[..k][i];
    if DistinctPaths(files[..k]) && files[k].path !in PathsOf(files[..k]) {
      forall i, j | 0 <= i < j < |some| ensures some[i].path != some[j].path {
        assert files[..k][i] == some[i];
        if j < k { assert files[..k][j] == some[j]; }
      }
    }
  }

  lemma {:induction false} CountDistinct(files: seq<ChecksumEntry>)
    ensures |PathsOf(files)| <= |files|
    ensures |PathsOf(files)| == |files| ==> DistinctPaths(files)
  {
    if files != [] {
      var n := |files| - 1;
      CountDistinct(files[..n]);
      PathsExtend(files);
      Extends(files, n);
      assert files[..n + 1] == files;
    }
  }

  lemma PathsOfSame(s: seq<ChecksumEntry>, r: seq<ChecksumEntry>)
    requires multiset(s) == multiset(r)
    ensures PathsOf(s) <= PathsOf(r)
  {
    forall i | 0 <= i < |s| ensures s[i].path in PathsOf(r) {
      assert s[i] in multiset(r);
      assert s[i] in r;
    }
  }

  /** Reordering an index keeps its paths distinct. */
  lemma ReorderedDistinct(s: seq<ChecksumEntry>, r: seq<ChecksumEntry>)
    requires multiset(s) == multiset(r) && DistinctPaths(s)
    ensures DistinctPaths(r) && PathsOf(r) == PathsOf(s)
  {
    PathsOfSame(s, r);
    PathsOfSame(r, s);
    DistinctCount(s);
    assert PathsOf(r) == PathsOf(s);
    assert |s| == |multiset(s)| == |multiset(r)| == |r|;
    CountDistinct(r);
  }

  method VerifyChecksums(index: ChecksumIndex, observed: map<string, ChecksumEntry>) returns (ok: bool)
    ensures ok <==> Agrees(index, observed)
  {
    hide Describes, DistinctPaths, PathsOf;
    var files := index.files;
    assert |observed.Keys| == |observed|;
    if index.algorithm != ALGORITHM || |files| != |observed| {
      if Agrees(index, observed) { DistinctCount(files); }
      return false;
    }
    var seen: set<string> := {};
    NoPaths(files);
    for k := 0 to |files|
      invariant seen == PathsOf(files[..k])
      invariant forall i :: 0 <= i < k ==> Describes(files[i], observed)
      invariant DistinctPaths(files[..k])
    {
      var item := files[k];
      Extends(files, k);
      if item.path in seen || !Describes(item, observed) { return false; }
      seen := seen + {item.path};
    }
    assert files[..|files|] == files;
    DistinctCount(files);
    AllObserved(files, observed);
    SubsetOfSameSize(PathsOf(files), observed.Keys);
    ok := true;
  }

  /**
   Agreement, entry by entry: distinct canonical paths, a digest of 64 hexadecimal digits each, the digest, size, mode
   and owner that were observed, and an entry for every observed file.
   */
  lemma AgreesExactly(index: ChecksumIndex, observed: map<string, ChecksumEntry>)
    ensures Agrees(index, observed) <==>
            && index.algorithm == "sha256"
            && (forall i, j :: 0 <= i < j < |index.files| ==> index.files[i].path != index.files[j].path)
            && (forall i :: 0 <= i < |index.files| ==>
                  var x := index.files[i];
                  && Canonical(x.path) && |x.digest| == 64 && (forall k :: 0 <= k < 64 ==> HexDigit(x.digest[k]))
                  && x.path in observed && observed[x.path].digest == x.digest && observed[x.path].size == x.size
                  && observed[x.path].mode == x.mode && observed[x.path].uid == x.uid && observed[x.path].gid == x.gid)
            && (forall name :: name in observed ==> exists i :: 0 <= i < |index.files| && index.files[i].path == name)
  {
    hide Canonical;
  }

  lemma NoPaths(files: seq<ChecksumEntry>)
    ensures PathsOf(files[..0]) == {} && DistinctPaths(files[..0])
  {
  }

  lemma AllObserved(files: seq<ChecksumEntry>, observed: map<string, ChecksumEntry>)
    requires forall i :: 0 <= i < |files| ==> Describes(files[i], observed)
    ensures PathsOf(files) <= observed.Keys
  {
  }
}
