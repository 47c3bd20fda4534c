/** Writing an application backup, and what reading it back gives. */
module ArchiveWriter {
  import opened Options
  import opened Paths
  import opened Sorting
  import opened Checksums
  import opened BackupManifest
  import opened Archive

  datatype InlineFile = InlineFile(archivePath: string, contents: Bytes, mode: nat)

  /** One step of the walk over a source directory, which begins with the directory itself. */
  datatype Visit = Visit(rel: string, kind: Kind, mode: nat, uid: int, gid: int, content: Bytes)
  datatype Source = Source(archivePath: string, walk: seq<Visit>)

  /** A file or directory as it goes into the archive. */
  datatype Item = Item(path: string, kind: Kind, mode: nat, uid: int, gid: int, content: Bytes)

  /** An index as JSON gives it back: its paths are spelled as text. */
  function Spelled(c: Codec, x: ChecksumIndex): ChecksumIndex {
    x.(files := seq(|x.files|, i requires 0 <= i < |x.files| => x.files[i].(path := c.text(x.files[i].path))))
  }

  /**
   Encodings are not empty and an index reads back with its paths spelled as text; spelling again changes nothing and
   makes no path canonical that was not; digests are 64 hexadecimal digits.
   */
  ghost predicate Faithful(c: Codec) {
    && (forall m :: c.manifestBytes(m) != [])
    && (forall x :: c.indexBytes(x) != [] && c.indexFrom(c.indexBytes(x)) == Some(Spelled(c, x)))
    && (forall a :: c.text(c.text(a)) == c.text(a) && (Canonical(c.text(a)) ==> Canonical(a)))
    && (forall b :: Digest(c.digest(b)))
  }

  /** The manifest's own strings survive their encoding. */
  ghost predicate Survives(c: Codec, m: Manifest) { c.manifestFrom(c.manifestBytes(Sealed(m))) == Some(Sealed(m)) }

  // ----- what is written -----------------------------------------------------------------------------------

  function HeaderOf(it: Item): Entry {
    Entry(ArchiveName(it.path) + (if it.kind.Directory? then "/" else ""), it.kind, it.mode, it.uid, it.gid, |it.content|, it.content)
  }

  function Headers(items: seq<Item>): seq<Entry> { seq(|items|, i requires 0 <= i < |items| => HeaderOf(items[i])) }

  function ChecksumOf(c: Codec, it: Item): ChecksumEntry {
    ChecksumEntry(it.path, c.digest(it.content), |it.content|, it.mode, it.uid, it.gid)
  }

  /** The checksums of the regular items, in order. */
  function ChecksumsOf(c: Codec, items: seq<Item>): seq<ChecksumEntry> {
    if items == [] then []
    else
      var last := items[|items| - 1];
      ChecksumsOf(c, items[..|items| - 1]) + if last.kind.Regular? then [ChecksumOf(c, last)] else []
  }

  function IndexOf(c: Codec, items: seq<Item>): ChecksumIndex {
    StringsCompare();
    ChecksumIndex(ALGORITHM, SortBy(ChecksumsOf(c, items), (e: ChecksumEntry) => e.path, AtMost))
  }

  function IndexItem(c: Codec, items: seq<Item>): Item {
    Item(INDEX_PATH, Regular, 0x180, 0, 0, c.indexBytes(IndexOf(c, items)))
  }

  /** The archive of a list of items: each with its header, then the checksum index. */
  function ArchiveOf(c: Codec, items: seq<Item>): seq<Entry> { Headers(items + [IndexItem(c, items)]) }

  function InlineMode(mode: nat): nat { if Permissions(mode) == 0 then 0x180 else Permissions(mode) }

  function InlineItem(f: InlineFile): Item { Item(f.archivePath, Regular, InlineMode(f.mode), 0, 0, f.contents) }

  function ManifestFile(c: Codec, m: Manifest): InlineFile { InlineFile(MANIFEST_PATH, c.manifestBytes(Sealed(m)), 0x180) }

  function SortedInline(c: Codec, m: Manifest, inline: seq<InlineFile>): seq<InlineFile> {
    StringsCompare();
    SortBy(inline + [ManifestFile(c, m)], (f: InlineFile) => f.archivePath, AtMost)
  }

  function SortedSources(sources: seq<Source>): seq<Source> {
    StringsCompare();
    SortBy(sources, (s: Source) => s.archivePath, AtMost)
  }

  function VisitItem(s: Source, i: nat): Item
    requires i < |s.walk|
  {
    var v := s.walk[i];
    Item(if i == 0 then s.archivePath else s.archivePath + "/" + v.rel, v.kind, Permissions(v.mode), v.uid, v.gid, if v.kind.Directory? then [] else v.content)
  }

  function InlineItems(files: seq<InlineFile>): seq<Item> { seq(|files|, i requires 0 <= i < |files| => InlineItem(files[i])) }
  function WalkItems(s: Source): seq<Item> { seq(|s.walk|, i requires 0 <= i < |s.walk| => VisitItem(s, i)) }

  function SourceItems(sources: seq<Source>): seq<Item> {
    if sources == [] then [] else SourceItems(sources[..|sources| - 1]) + WalkItems(sources[|sources| - 1])
  }

  /** Everything a backup holds, in the order it is written. */
  function Items(c: Codec, m: Manifest, inline: seq<InlineFile>, sources: seq<Source>): seq<Item> {
    InlineItems(SortedInline(c, m, inline)) + SourceItems(SortedSources(sources))
  }

  // ----- when writing succeeds -------------------------------------------------------------------------------

  ghost predicate DistinctItems(items: seq<Item>) { forall i, j :: 0 <= i < j < |items| ==> items[i].path != items[j].path }

  predicate InlineOk(f: InlineFile) { Canonical(f.archivePath) && f.archivePath != INDEX_PATH }

  /** A source is a real directory that holds only files and directories. */
  predicate SourceOk(s: Source) {
    && Canonical(s.archivePath) && s.walk != [] && s.walk[0].kind.Directory?
    && forall i :: 0 <= i < |s.walk| ==> s.walk[i].kind != Special
  }

  ghost predicate Archivable(c: Codec, m: Manifest, inline: seq<InlineFile>, sources: seq<Source>) {
    && (forall i :: 0 <= i < |inline| ==> InlineOk(inline[i]))
    && (forall i :: 0 <= i < |sources| ==> SourceOk(sources[i]))
    && DistinctItems(Items(c, m, inline, sources))
  }

  ghost function PathsIn(items: seq<Item>): set<string> { set i | 0 <= i < |items| :: items[i].path }

  lemma ItemsExtend(items: seq<Item>, it: Item)
    ensures PathsIn(items + [it]) == PathsIn(items) + {it.path}
    ensures DistinctItems(items + [it]) <==> DistinctItems(items) && it.path !in PathsIn(items)
  {
    var more := items + [it];
    assert forall i :: 0 <= i < |items| ==> more[i] == items[i];
    assert more[|items|] == it;
    if DistinctItems(more) {
      forall i, j | 0 <= i < j < |items| ensures items[i].path != items[j].path { assert more[i].path != more[j].path; }
      forall i | 0 <= i < |items| ensures items[i].path != it.path { assert more[i].path != more[|items|].path; }
    }
  }

  lemma ChecksumsExtend(c: Codec, items: seq<Item>, it: Item)
    ensures ChecksumsOf(c, items + [it]) == ChecksumsOf(c, items) + if it.kind.Regular? then [ChecksumOf(c, it)] else []
  {
    assert (items + [it])[..|items|] == items;
  }

  lemma HeadersExtend(items: seq<Item>, it: Item)
    ensures Headers(items + [it]) == Headers(items) + [HeaderOf(it)]
  {
  }

  /** The next of a list of items. */
  lemma Next(items: seq<Item>, list: seq<Item>, k: nat)
    requires k < |list|
    ensures items + list[..k + 1] == items + list[..k] + [list[k]]
    ensures DistinctItems(items + list) ==> DistinctItems(items + list[..k] + [list[k]])
  {
    var all, some := items + list, items + list[..k] + [list[k]];
    assert all[..|some|] == some;
    assert forall i :: 0 <= i < |some| ==> some[i] == all[i];
  }

  // ----- the writer --------------------------------------------------------------------------------------------

  /** The state of a writer: what is in the archive so far. */
  class Writer {
    const codec: Codec
    var entries: seq<Entry>
    var checksums: seq<ChecksumEntry>
    var seen: set<string>
    ghost var items: seq<Item>

    ghost predicate Valid()
      reads this
    {
      && entries == Headers(items) && checksums == ChecksumsOf(codec, items)
      && seen == PathsIn(items) && DistinctItems(items)
    }

    constructor (c: Codec)
      ensures Valid() && codec == c && items == []
    {
      codec, entries, checksums, seen, items := c, [], [], {}, [];
    }

    /** Adds one item, unless its path is taken. */
    method Put(it: Item) returns (ok: bool)
      requires Valid()
      modifies this
      ensures Valid()
      ensures ok <==> DistinctItems(old(items) + [it])
      ensures items == if ok then old(items) + [it] else old(items)
    {
      hide ChecksumsOf, PathsIn, DistinctItems, Headers;
      ItemsExtend(items, it);
      ChecksumsExtend(codec, items, it);
      HeadersExtend(items, it);
      if it.path in seen { return false; }
      seen := seen + {it.path};
      entries := entries + [HeaderOf(it)];
      if it.kind.Regular? { checksums := checksums + [ChecksumOf(codec, it)]; }
      items := items + [it];
      ok := true;
    }

    method PutInline(files: seq<InlineFile>) returns (ok: bool)
      requires Valid()
      modifies this
      ensures Valid()
      ensures ok <==> DistinctItems(old(items) + InlineItems(files)) && forall i :: 0 <= i < |files| ==> InlineOk(files[i])
      ensures ok ==> items == old(items) + InlineItems(files)
    {
      hide Valid, DistinctItems, InlineOk, InlineItems;
      ghost var list := InlineItems(files);
      AllInline(files);
      for k := 0 to |files|
        invariant Valid() && items == old(items) + list[..k]
        invariant forall i :: 0 <= i < k ==> InlineOk(files[i])
      {
        Next(old(items), list, k);
        if !InlineOk(files[k]) { return false; }
        var added := Put(InlineItem(files[k]));
        if !added { return false; }
      }
      assert list[..|list|] == list;
      AreDistinct();
      ok := true;
    }

    lemma AreDistinct()
      requires Valid()
      ensures DistinctItems(items)
    {
    }

    method PutWalk(s: Source) returns (ok: bool)
      requires Valid()
      modifies this
      ensures Valid()
      ensures ok <==> DistinctItems(old(items) + WalkItems(s)) && SourceOk(s)
      ensures ok ==> items == old(items) + WalkItems(s)
    {
      hide Valid, DistinctItems, WalkItems, Canonical;
      ghost var list := WalkItems(s);
      AllVisited(s);
      if !Canonical(s.archivePath) || s.walk == [] || !s.walk[0].kind.Directory? { return false; }
      for k := 0 to |s.walk|
        invariant Valid() && items == old(items) + list[..k]
        invariant forall i :: 0 <= i < k ==> s.walk[i].kind != Special
      {
        Next(old(items), list, k);
        if s.walk[k].kind == Special { return false; }
        var added := Put(VisitItem(s, k));
        if !added { return false; }
      }
      assert list[..|list|] == list;
      AreDistinct();
      ok := true;
    }

    method PutSources(sources: seq<Source>) returns (ok: bool)
      requires Valid()
      modifies this
      ensures Valid()
      ensures ok <==> DistinctItems(old(items) + SourceItems(sources)) && forall i :: 0 <= i < |sources| ==> SourceOk(sources[i])
      ensures ok ==> items == old(items) + SourceItems(sources)
    {
      hide Valid, DistinctItems, SourceItems, WalkItems, SourceOk;
      NoSources(items, sources);
      AreDistinct();
      for k := 0 to |sources|
        invariant Valid() && items == old(items) + SourceItems(sources[..k])
        invariant forall i :: 0 <= i < k ==> SourceOk(sources[i])
      {
        NextSource(old(items), sources, k);
        var added := PutWalk(sources[k]);
        if !added { return false; }
      }
      assert sources[..|sources|] == sources;
      AreDistinct();
      ok := true;
    }
  }

  lemma AllInline(files: seq<InlineFile>)
    ensures |InlineItems(files)| == |files|
    ensures forall i :: 0 <= i < |files| ==> InlineItems(files)[i] == InlineItem(files[i])
  {
  }

  lemma AllVisited(s: Source)
    ensures |WalkItems(s)| == |s.walk|
    ensures forall i :: 0 <= i < |s.walk| ==> WalkItems(s)[i] == VisitItem(s, i)
  {
  }

  lemma NoSources(items: seq<Item>, sources: seq<Source>)
    ensures items + SourceItems(sources[..0]) == items
  {
  }

  lemma {:induction false} SourcePrefix(sources: seq<Source>, k: nat)
    requires k <= |sources|
    ensures SourceItems(sources[..k]) <= SourceItems(sources)
    decreases |sources|
  {
    if k == |sources| {
      assert sources[..k] == sources;
    } else {
      var n := |sources| - 1;
      assert sources[..n][..k] == sources[..k];
      SourcePrefix(sources[..n], k);
    }
  }

  lemma NextSource(items: seq<Item>, sources: seq<Source>, k: nat)
    requires k < |sources|
    ensures items + SourceItems(sources[..k + 1]) == items + SourceItems(sources[..k]) + WalkItems(sources[k])
    ensures DistinctItems(items + SourceItems(sources)) ==> DistinctItems(items + SourceItems(sources[..k]) + WalkItems(sources[k]))
  {
    hide WalkItems;
    var some := sources[..k + 1];
    assert some[..k] == sources[..k] && some[k] == sources[k];
    assert SourceItems(some) == SourceItems(sources[..k]) + WalkItems(sources[k]);
    SourcePrefix(sources, k + 1);
    FrontDistinct(items + SourceItems(some), items + SourceItems(sources));
    assert items + SourceItems(some) == items + SourceItems(sources[..k]) + WalkItems(sources[k]);
  }

  lemma FrontDistinct(some: seq<Item>, all: seq<Item>)
    requires some <= all
    ensures DistinctItems(all) ==> DistinctItems(some)
  {
    assert forall i :: 0 <= i < |some| ==> some[i] == all[i];
  }

  lemma SortedOk<T(!new)>(s: seq<T>, r: seq<T>, p: T -> bool)
    requires multiset(s) == multiset(r)
    ensures (forall i :: 0 <= i < |s| ==> p(s[i])) <==> (forall i :: 0 <= i < |r| ==> p(r[i]))
  {
    forall i | 0 <= i < |s| ensures s[i] in r { assert s[i] in multiset(s); }
    forall i | 0 <= i < |r| ensures r[i] in s { assert r[i] in multiset(r); }
  }

  /** Writes a backup: the inline files and the manifest, the sources, and the checksum index of all of them. */
  method WriteArchive(c: Codec, m: Manifest, inline: seq<InlineFile>, sources: seq<Source>) returns (r: Option<seq<Entry>>)
    ensures r.Some? <==> Archivable(c, m, inline, sources)
    ensures r.Some? ==> r.value == ArchiveOf(c, Items(c, m, inline, sources))
  {
    hide DistinctItems, InlineItems, SourceItems, SourceOk, SortedInline, SortedSources, Headers, ChecksumsOf, IndexItem, HeaderOf;
    var files, walks := SortedInline(c, m, inline), SortedSources(sources);
    SortingKeeps(c, m, inline, sources);
    var w := new Writer(c);
    assert [] + InlineItems(files) == InlineItems(files);
    FrontDistinct(InlineItems(files), InlineItems(files) + SourceItems(walks));
    var ok := w.PutInline(files);
    if !ok { return None; }
    ok := w.PutSources(walks);
    if !ok { return None; }
    ghost var items := Items(c, m, inline, sources);
    HeadersExtend(items, IndexItem(c, items));
    r := Some(w.entries + [WriteIndex(c, w.checksums)]);
    IndexWritten(c, items);
  }

  /** What the writer accepts, said of its inputs. */
  lemma ArchivableMeans(c: Codec, m: Manifest, inline: seq<InlineFile>, sources: seq<Source>)
    requires Archivable(c, m, inline, sources)
    ensures forall i :: 0 <= i < |inline| ==>
              inline[i].archivePath != "checksums/sha256.json" && inline[i].archivePath != "manifest.json" && Canonical(inline[i].archivePath)
    ensures forall i :: 0 <= i < |sources| ==>
              && Canonical(sources[i].archivePath) && |sources[i].walk| > 0 && sources[i].walk[0].kind == Directory
              && forall k :: 0 <= k < |sources[i].walk| ==> sources[i].walk[k].kind == Directory || sources[i].walk[k].kind == Regular
  {
    hide Canonical, SourceItems, WalkItems, Items;
    forall i | 0 <= i < |inline| ensures InlineOk(inline[i]) && inline[i].archivePath != MANIFEST_PATH {
      if inline[i].archivePath == MANIFEST_PATH { TwoManifests(c, m, inline, sources, i); }
    }
  }

  /** An inline file in the manifest's place is refused as a duplicate. */
  lemma TwoManifests(c: Codec, m: Manifest, inline: seq<InlineFile>, sources: seq<Source>, i: nat)
    requires i < |inline| && inline[i].archivePath == MANIFEST_PATH
    ensures !DistinctItems(Items(c, m, inline, sources))
  {
    hide SortBy, SourceItems;
    var all, files := inline + [ManifestFile(c, m)], SortedInline(c, m, inline);
    TwoOfAKind(all, files, i, |inline|);
    var a, b :| 0 <= a < b < |files| && files[a].archivePath == MANIFEST_PATH && files[b].archivePath == MANIFEST_PATH;
    var items := Items(c, m, inline, sources);
    assert items[a].path == MANIFEST_PATH && items[b].path == MANIFEST_PATH;
  }

  lemma TwoOfAKind(all: seq<InlineFile>, files: seq<InlineFile>, i: nat, j: nat)
    requires multiset(all) == multiset(files) && i < j < |all|
    requires all[i].archivePath == MANIFEST_PATH && all[j].archivePath == MANIFEST_PATH
    ensures exists a, b :: 0 <= a < b < |files| && files[a].archivePath == MANIFEST_PATH && files[b].archivePath == MANIFEST_PATH
  {
    assert all[i] in multiset(all);
    assert all[i] in multiset(files);
    var a :| 0 <= a < |files| && files[a] == all[i];
    Removed(files, a);
    Removed(all, i);
    var rest, others := Without(files, a), Without(all, i);
    assert others[j - 1] == all[j];
    assert all[j] in multiset(others);
    assert all[j] in multiset(rest);
    var b :| 0 <= b < |rest| && rest[b] == all[j];
    assert files[if b < a then b else b + 1] == all[j];
  }

  function Without<T>(s: seq<T>, i: nat): seq<T>
    requires i < |s|
  {
    s[..i] + s[i + 1..]
  }

  lemma Removed<T>(s: seq<T>, i: nat)
    requires i < |s|
    ensures multiset(Without(s, i)) == multiset(s) - multiset{s[i]}
  {
    assert s == s[..i] + ([s[i]] + s[i + 1..]);
    assert multiset(s) == multiset(s[..i]) + (multiset{s[i]} + multiset(s[i + 1..]));
  }

  /** The entry of the index of a list of checksums. */
  function WriteIndex(c: Codec, checksums: seq<ChecksumEntry>): Entry {
    StringsCompare();
    var data := c.indexBytes(ChecksumIndex(ALGORITHM, SortBy(checksums, (e: ChecksumEntry) => e.path, AtMost)));
    Entry(ArchiveName(INDEX_PATH), Regular, 0x180, 0, 0, |data|, data)
  }

  lemma IndexWritten(c: Codec, items: seq<Item>)
    ensures WriteIndex(c, ChecksumsOf(c, items)) == HeaderOf(IndexItem(c, items))
  {
  }

  lemma SortingKeeps(c: Codec, m: Manifest, inline: seq<InlineFile>, sources: seq<Source>)
    ensures (forall i :: 0 <= i < |inline| ==> InlineOk(inline[i])) <==>
            (forall i :: 0 <= i < |SortedInline(c, m, inline)| ==> InlineOk(SortedInline(c, m, inline)[i]))
    ensures (forall i :: 0 <= i < |sources| ==> SourceOk(sources[i])) <==>
            (forall i :: 0 <= i < |SortedSources(sources)| ==> SourceOk(SortedSources(sources)[i]))
  {
    hide InlineOk, SourceOk, SortBy;
    var all := inline + [ManifestFile(c, m)];
    ManifestInlineOk(c, m);
    assert all[|inline|] == ManifestFile(c, m) && forall i :: 0 <= i < |inline| ==> all[i] == inline[i];
    SortedOk(all, SortedInline(c, m, inline), InlineOk);
    SortedOk(sources, SortedSources(sources), SourceOk);
  }

  lemma ManifestInlineOk(c: Codec, m: Manifest)
    ensures InlineOk(ManifestFile(c, m))
  {
    FixedPaths();
  }

  lemma FixedPaths()
    ensures Canonical(MANIFEST_PATH) && Canonical(INDEX_PATH) && MANIFEST_PATH != INDEX_PATH
    ensures MANIFEST_PATH != ".." && INDEX_PATH != ".."
  {
    ManifestCanonical();
    IndexCanonical();
  }

  lemma ManifestCanonical()
    ensures Canonical(MANIFEST_PATH)
  {
    hide Split, Canonical, Join, CleanOnto;
    SplitAtSlash(MANIFEST_PATH, "");
    assert AllPlain([MANIFEST_PATH]);
    CanonicalExactly(MANIFEST_PATH);
  }

  lemma IndexCanonical()
    ensures Canonical(INDEX_PATH)
  {
    hide Split, Canonical, Join, CleanOnto;
    assert INDEX_PATH == "checksums" + "/" + "sha256.json";
    SplitAtSlash("checksums", "sha256.json");
    SplitAtSlash("sha256.json", "");
    assert AllPlain(["checksums"] + ["sha256.json"]);
    CanonicalExactly(INDEX_PATH);
  }

  // ----- reading back ----------------------------------------------------------------------------------------

  predicate ItemFits(it: Item, l: Limits) {
    && Canonical(it.path) && it.path != ".." && |it.content| <= l.maxFileBytes
    && (it.kind.Regular? && it.path == MANIFEST_PATH ==> |it.content| <= 0x40_0000)
    && (it.kind.Regular? && it.path == INDEX_PATH ==> |it.content| <= 0x800_0000)
  }

  ghost function Size(items: seq<Item>): int { if items == [] then 0 else Size(items[..|items| - 1]) + |items[|items| - 1].content| }

  /** No item lies below a file. */
  ghost predicate NotNested(items: seq<Item>) {
    forall i, j :: 0 <= i < |items| && 0 <= j < |items| && items[i].kind.Regular? ==> !Ancestor(items[i].path, items[j].path)
  }

  /** What the reader demands of the items, said of the items themselves: canonical paths, no nesting, within the limits. */
  ghost predicate Fits(items: seq<Item>, l: Limits) {
    && |items| <= l.maxEntries && Size(items) <= l.maxTotalBytes
    && (forall i :: 0 <= i < |items| ==> ItemFits(items[i], l)) && DistinctItems(items) && NotNested(items)
  }

  lemma HeaderName(it: Item)
    requires it.kind != Special
    ensures Canonical(it.path) ==> NameOf(HeaderOf(it)) == Some(it.path)
    ensures it.kind.Directory? && !Canonical(it.path) ==> NameOf(HeaderOf(it)).None?
  {
    hide Canonical, ValidateArchiveName;
    NamesRoundTrip(it.path);
    assert ArchiveName(it.path) + "" == ArchiveName(it.path);
  }

  lemma {:induction false} SizeIsTotal(items: seq<Item>)
    ensures Total(Headers(items)) == Size(items)
  {
    hide HeaderOf;
    if items != [] {
      var n := |items| - 1;
      SizeIsTotal(items[..n]);
      assert Headers(items)[..n] == Headers(items[..n]);
      HeaderSize(items[n]);
    }
  }

  lemma HeaderSize(it: Item)
    ensures HeaderOf(it).size == |it.content| && HeaderOf(it).content == it.content && HeaderOf(it).kind == it.kind
    ensures DataOf(HeaderOf(it)) == it.content
  {
  }

  ghost predicate AllCanonical(items: seq<Item>) {
    forall i :: 0 <= i < |items| ==> items[i].kind != Special && Canonical(items[i].path)
  }

  lemma NamesAre(items: seq<Item>)
    requires AllCanonical(items)
    ensures |Headers(items)| == |items|
    ensures forall i :: 0 <= i < |items| ==> Headers(items)[i] == HeaderOf(items[i]) && NameOf(Headers(items)[i]) == Some(items[i].path)
    ensures forall i :: 0 <= i < |items| ==> Name(Headers(items)[i]) == items[i].path
  {
    hide HeaderOf, Canonical;
    forall i | 0 <= i < |items| ensures NameOf(Headers(items)[i]) == Some(items[i].path) { HeaderName(items[i]); }
  }

  /** Headers of items with canonical paths are extractable exactly when the items fit. */
  lemma HeadersExtractable(items: seq<Item>, l: Limits)
    requires AllCanonical(items)
    ensures Extractable(Headers(items), l) <==> Fits(items, l)
  {
    hide Total, Size, HeaderOf, NameOf, Name, Canonical, Within;
    var es := Headers(items);
    NamesAre(items);
    SizeIsTotal(items);
    forall i | 0 <= i < |items| ensures EntryOk(es[i], l) && Readable(es[i]) <==> ItemFits(items[i], l) {
      HeaderSize(items[i]);
      CanonicalWithin(items[i].path);
    }
    SameDistinct(items);
    SameNesting(items);
  }

  lemma SameDistinct(items: seq<Item>)
    requires AllCanonical(items)
    ensures Distinct(Headers(items)) <==> DistinctItems(items)
  {
    hide Name, NameOf, Headers, AllCanonical;
    NamesAre(items);
  }

  lemma SameNesting(items: seq<Item>)
    requires AllCanonical(items)
    ensures Unblocked(Headers(items)) <==> NotNested(items)
  {
    hide Name, NameOf, Headers, HeaderOf, Ancestor, AllCanonical;
    var es := Headers(items);
    NamesAre(items);
    forall i | 0 <= i < |items| ensures es[i].kind == items[i].kind { HeaderSize(items[i]); }
    if NotNested(items) {
      forall i, j | 0 <= i < |es| && 0 <= j < |es| ensures !Blocks(es[i], es[j]) {}
    }
    if Unblocked(es) {
      forall i, j | 0 <= i < |items| && 0 <= j < |items| && items[i].kind.Regular? ensures !Ancestor(items[i].path, items[j].path) {
        assert !Blocks(es[i], es[j]);
      }
    }
  }

  // ----- the index of what was written ---------------------------------------------------------------------------

  lemma {:induction false} ChecksumsExactly(c: Codec, items: seq<Item>, e: ChecksumEntry)
    ensures e in ChecksumsOf(c, items) <==> exists i :: 0 <= i < |items| && items[i].kind.Regular? && ChecksumOf(c, items[i]) == e
  {
    hide ChecksumOf;
    if items != [] {
      var n := |items| - 1;
      ChecksumsExactly(c, items[..n], e);
      assert forall i :: 0 <= i < n ==> items[..n][i] == items[i];
    }
  }

  lemma {:induction false} ChecksumsDistinct(c: Codec, items: seq<Item>)
    requires DistinctItems(items)
    ensures DistinctPaths(ChecksumsOf(c, items))
  {
    if items != [] {
      var n := |items| - 1;
      var before, all := ChecksumsOf(c, items[..n]), ChecksumsOf(c, items);
      ChecksumsDistinct(c, items[..n]);
      if items[n].kind.Regular? {
        forall i | 0 <= i < |before| ensures before[i].path != items[n].path {
          ChecksumsExactly(c, items[..n], before[i]);
          var j :| 0 <= j < n && items[..n][j].kind.Regular? && ChecksumOf(c, items[..n][j]) == before[i];
          assert items[j].path != items[n].path;
        }
        assert all == before + [ChecksumOf(c, items[n])];
      }
    }
  }

  /** The checksum index describes every regular item, and nothing else. */
  lemma IndexExactly(c: Codec, items: seq<Item>, e: ChecksumEntry)
    ensures e in IndexOf(c, items).files <==> exists i :: 0 <= i < |items| && items[i].kind.Regular? && ChecksumOf(c, items[i]) == e
  {
    hide ChecksumsOf, ChecksumOf;
    var s := ChecksumsOf(c, items);
    ChecksumsExactly(c, items, e);
    var r := IndexOf(c, items).files;
    assert e in r <==> e in multiset(r);
    assert e in s <==> e in multiset(s);
  }

  ghost predicate Normal(items: seq<Item>) { forall i :: 0 <= i < |items| ==> items[i].kind != Special && items[i].mode < 512 }

  lemma ObservedOfItem(c: Codec, items: seq<Item>, i: nat)
    requires AllCanonical(items) && Normal(items) && DistinctItems(items)
    requires i < |items| && items[i].kind.Regular? && items[i].path != INDEX_PATH
    ensures
      var o := Observed(c, Headers(items));
      items[i].path in o && o[items[i].path] == ChecksumOf(c, items[i])
  {
    hide Observed, Name, NameOf, Canonical, Distinct;
    NamesAre(items);
    SameDistinct(items);
    HeaderSize(items[i]);
    ObservedAt(c, Headers(items), i);
  }

  /** The index written for the items agrees with what the reader observes. */
  lemma IndexAgrees(c: Codec, items: seq<Item>)
    requires Faithful(c) && Normal(items)
    requires AllCanonical(items + [IndexItem(c, items)]) && DistinctItems(items + [IndexItem(c, items)])
    ensures Agrees(IndexOf(c, items), Observed(c, ArchiveOf(c, items)))
  {
    hide Observed, Canonical, Headers, IndexItem, ChecksumOf, ChecksumsOf, SortBy, Digest;
    var all := items + [IndexItem(c, items)];
    var observed, files := Observed(c, Headers(all)), IndexOf(c, items).files;
    IndexItemIs(c, items);
    assert all[|items|].path == INDEX_PATH;
    forall i | 0 <= i < |items| ensures items[i].path != INDEX_PATH { assert all[i] == items[i]; }
    FrontDistinct(items, all);
    ChecksumsDistinct(c, items);
    ReorderedDistinct(ChecksumsOf(c, items), files);
    forall k | 0 <= k < |files| ensures Describes(files[k], observed) {
      IndexExactly(c, items, files[k]);
      var i :| 0 <= i < |items| && items[i].kind.Regular? && ChecksumOf(c, items[i]) == files[k];
      assert all[i] == items[i];
      ObservedOfItem(c, all, i);
      ChecksumFields(c, items[i]);
    }
    AllObserved(files, observed);
    forall name | name in observed ensures name in PathsOf(files) {
      ObservedIsItem(c, items, name);
      var i :| 0 <= i < |items| && items[i].kind.Regular? && items[i].path == name;
      IndexExactly(c, items, ChecksumOf(c, items[i]));
      ChecksumFields(c, items[i]);
    }
  }

  lemma ChecksumFields(c: Codec, it: Item)
    ensures ChecksumOf(c, it).path == it.path && ChecksumOf(c, it).digest == c.digest(it.content)
  {
  }

  lemma IndexItemIs(c: Codec, items: seq<Item>)
    ensures IndexItem(c, items).path == INDEX_PATH && IndexItem(c, items).kind.Regular? && IndexItem(c, items).mode < 512
    ensures IndexItem(c, items).content == c.indexBytes(IndexOf(c, items))
  {
  }

  lemma ObservedIsItem(c: Codec, items: seq<Item>, name: string)
    requires AllCanonical(items + [IndexItem(c, items)])
    requires name in Observed(c, ArchiveOf(c, items))
    ensures exists i :: 0 <= i < |items| && items[i].kind.Regular? && items[i].path == name
  {
    hide Observed, Canonical, Name, NameOf, IndexItem, HeaderOf;
    var all := items + [IndexItem(c, items)];
    var es := Headers(all);
    NamesAre(all);
    IndexItemIs(c, items);
    ObservedExactly(c, es, name);
    var i :| 0 <= i < |es| && es[i].kind.Regular? && Name(es[i]) != INDEX_PATH && Name(es[i]) == name;
    HeaderSize(all[i]);
    assert i < |items| && all[i] == items[i];
  }

  // ----- the round trip ----------------------------------------------------------------------------------------------

  /** The index is the last entry, so it is read as it was written. */
  lemma IndexReadBack(c: Codec, items: seq<Item>)
    ensures Metadata(ArchiveOf(c, items), INDEX_PATH) == c.indexBytes(IndexOf(c, items))
  {
    hide Metadata, Canonical, IndexOf;
    var it, es := IndexItem(c, items), ArchiveOf(c, items);
    var n := |items|;
    assert es[n] == HeaderOf(it);
    FixedPaths();
    HeaderName(it);
    HeaderSize(it);
    assert ArchiveName(INDEX_PATH) + "" == ArchiveName(INDEX_PATH);
    LastMetadata(es, INDEX_PATH);
  }

  lemma LastMetadata(es: seq<Entry>, path: string)
    requires es != [] && es[|es| - 1].kind.Regular? && Name(es[|es| - 1]) == path
    ensures Metadata(es, path) == Captured(es[|es| - 1])
  {
  }

  lemma ManifestReadBack(c: Codec, m: Manifest, items: seq<Item>, i: nat)
    requires AllCanonical(items) && DistinctItems(items) && i < |items| && items[i] == InlineItem(ManifestFile(c, m))
    ensures Metadata(Headers(items), MANIFEST_PATH) == c.manifestBytes(Sealed(m))
  {
    hide Metadata, Canonical, Name, NameOf, Distinct, Sealed;
    NamesAre(items);
    SameDistinct(items);
    HeaderSize(items[i]);
    assert ArchiveName(MANIFEST_PATH) + "" == ArchiveName(MANIFEST_PATH);
    MetadataAt(Headers(items), i);
  }

  /** An item whose path is not canonical is refused: a directory by its name, a file by its index entry. */
  lemma NonCanonicalRefused(c: Codec, items: seq<Item>, l: Limits, i: nat)
    requires Faithful(c) && Normal(items) && i < |items| && !Canonical(items[i].path)
    ensures !(Extractable(ArchiveOf(c, items), l) && Verified(c, ArchiveOf(c, items)))
  {
    hide Canonical, Metadata, Observed, NameOf, HeaderOf, ChecksumOf, IndexItem, ChecksumsOf, ValidManifest, Total, Distinct, Unblocked, Readable;
    var es := ArchiveOf(c, items);
    assert es[i] == HeaderOf(items[i]);
    if items[i].kind.Directory? {
      HeaderName(items[i]);
      assert !EntryOk(es[i], l);
    } else {
      IndexReadBack(c, items);
      IndexExactly(c, items, ChecksumOf(c, items[i]));
      ChecksumFields(c, items[i]);
      var x := IndexOf(c, items);
      var k :| 0 <= k < |x.files| && x.files[k] == ChecksumOf(c, items[i]);
      var y := Spelled(c, x).files[k];
      assert y.path == c.text(items[i].path);
      assert !Describes(y, Observed(c, es));
    }
  }

  /** Every regular item's path is text already. */
  ghost predicate AllText(c: Codec, items: seq<Item>) {
    forall i :: 0 <= i < |items| && items[i].kind.Regular? ==> c.text(items[i].path) == items[i].path
  }

  /** With paths that are text the index reads back as it was. */
  lemma SpelledAsIs(c: Codec, items: seq<Item>)
    requires AllText(c, items)
    ensures Spelled(c, IndexOf(c, items)) == IndexOf(c, items)
  {
    hide IndexOf, ChecksumOf;
    var x := IndexOf(c, items);
    forall k | 0 <= k < |x.files| ensures c.text(x.files[k].path) == x.files[k].path {
      IndexExactly(c, items, x.files[k]);
      var i :| 0 <= i < |items| && items[i].kind.Regular? && ChecksumOf(c, items[i]) == x.files[k];
      ChecksumFields(c, items[i]);
    }
    assert Spelled(c, x).files == x.files;
  }

  lemma SpelledIsText(c: Codec, x: ChecksumIndex, path: string)
    requires Faithful(c)
    ensures path in PathsOf(Spelled(c, x).files) ==> c.text(path) == path
  {
    if path in PathsOf(Spelled(c, x).files) {
      var k :| 0 <= k < |x.files| && Spelled(c, x).files[k].path == path;
      assert c.text(c.text(x.files[k].path)) == c.text(x.files[k].path);
    }
  }

  /** A file whose path is not text is refused: no spelled path of the index can be its own. */
  lemma UnspelledRefused(c: Codec, items: seq<Item>, l: Limits, i: nat)
    requires Faithful(c) && Normal(items) && AllCanonical(items + [IndexItem(c, items)])
    requires i < |items| && items[i].kind.Regular? && c.text(items[i].path) != items[i].path
    ensures !(Extractable(ArchiveOf(c, items), l) && Verified(c, ArchiveOf(c, items)))
  {
    hide Canonical, Metadata, Observed, Headers, ChecksumOf, IndexItem, IndexOf, ValidManifest, Extractable, Describes, Digest;
    var es, all := ArchiveOf(c, items), items + [IndexItem(c, items)];
    if Extractable(es, l) && Verified(c, es) {
      HeadersExtractable(all, l);
      IndexItemIs(c, items);
      assert all[i] == items[i] && all[|items|].path == INDEX_PATH;
      assert Normal(all) && items[i].path != INDEX_PATH;
      ObservedOfItem(c, all, i);
      IndexReadBack(c, items);
      var x := IndexOf(c, items);
      SpelledIsText(c, x, items[i].path);
    }
  }

  /**
   The archive of a list of items is extracted exactly when the items and their index fit the reader's limits and the
   files' paths are text, and then gives back the manifest, the index and every file.
   */
  lemma WrittenReadsBack(c: Codec, m: Manifest, items: seq<Item>, l: Limits, i: nat)
    requires Faithful(c) && ValidManifest(m) && Survives(c, m) && Normal(items)
    requires i < |items| && items[i] == InlineItem(ManifestFile(c, m))
    ensures
      var es, all := ArchiveOf(c, items), items + [IndexItem(c, items)];
      && (Extractable(es, l) && Verified(c, es) <==> Fits(all, l) && AllText(c, items))
      && (Fits(all, l) ==>
            && Metadata(es, MANIFEST_PATH) == c.manifestBytes(Sealed(m))
            && Metadata(es, INDEX_PATH) == c.indexBytes(IndexOf(c, items)))
  {
    hide Canonical, Metadata, Observed, IndexItem, IndexOf, Headers, Extractable, Agrees, ManifestFile, InlineItem, Sealed, ValidManifest;
    var all := items + [IndexItem(c, items)];
    IndexItemIs(c, items);
    FixedPaths();
    assert all[|items|] == IndexItem(c, items) && forall j :: 0 <= j < |items| ==> all[j] == items[j];
    IndexReadBack(c, items);
    if j :| 0 <= j < |items| && !Canonical(items[j].path) {
      NonCanonicalRefused(c, items, l, j);
      assert !ItemFits(all[j], l);
    } else {
      assert AllCanonical(all);
      HeadersExtractable(all, l);
      if j :| 0 <= j < |items| && items[j].kind.Regular? && c.text(items[j].path) != items[j].path {
        UnspelledRefused(c, items, l, j);
      }
      if Fits(all, l) && AllText(c, items) {
        SpelledAsIs(c, items);
        IndexAgrees(c, items);
      }
      if Fits(all, l) {
        ManifestReadBack(c, m, all, i);
        SealedIsValid(m);
      }
    }
  }

  lemma SealedIsValid(m: Manifest)
    requires ValidManifest(m)
    ensures ValidManifest(Sealed(m))
  {
  }

  function StoredFile(it: Item, preserve: bool): File {
    File(it.content, Attributes(it.mode, if preserve then Some((it.uid, it.gid)) else None))
  }

  /** The files are the regular items, each under its own path with its content, mode and owner, and no others. */
  ghost predicate ExactlyTheFiles(files: map<string, File>, items: seq<Item>, preserve: bool) {
    && (forall i :: 0 <= i < |items| && items[i].kind.Regular? ==>
          items[i].path in files && files[items[i].path] == StoredFile(items[i], preserve))
    && (forall name :: name in files ==> exists i :: 0 <= i < |items| && items[i].kind.Regular? && items[i].path == name)
  }

  lemma FilesReadBack(items: seq<Item>, l: Limits, preserve: bool)
    requires Fits(items, l) && Normal(items)
    ensures ExactlyTheFiles(Files(Headers(items), preserve), items, preserve)
  {
    hide Canonical, Name, NameOf, Files, Distinct, Size, NotNested;
    var es := Headers(items);
    assert AllCanonical(items) by {
      forall i | 0 <= i < |items| ensures Canonical(items[i].path) { assert ItemFits(items[i], l); }
    }
    NamesAre(items);
    SameDistinct(items);
    forall i | 0 <= i < |items| && items[i].kind.Regular?
      ensures items[i].path in Files(es, preserve) && Files(es, preserve)[items[i].path] == StoredFile(items[i], preserve)
    {
      HeaderSize(items[i]);
      FileAt(es, preserve, i);
    }
    forall name | name in Files(es, preserve)
      ensures exists i :: 0 <= i < |items| && items[i].kind.Regular? && items[i].path == name
    {
      FilesExactly(es, preserve, name);
      var i :| 0 <= i < |es| && es[i].kind.Regular? && Name(es[i]) == name;
      assert items[i].kind.Regular? && items[i].path == name;
    }
  }

  lemma {:induction false} SourcesNormal(sources: seq<Source>)
    requires forall i :: 0 <= i < |sources| ==> SourceOk(sources[i])
    ensures Normal(SourceItems(sources))
  {
    hide Canonical;
    if sources != [] {
      var n := |sources| - 1;
      SourcesNormal(sources[..n]);
      assert SourceOk(sources[n]);
      AllVisited(sources[n]);
    }
  }

  lemma InlineNormal(files: seq<InlineFile>)
    ensures Normal(InlineItems(files))
  {
  }

  lemma ItemsNormal(c: Codec, m: Manifest, inline: seq<InlineFile>, sources: seq<Source>) returns (i: nat)
    requires Archivable(c, m, inline, sources)
    ensures Normal(Items(c, m, inline, sources))
    ensures i < |Items(c, m, inline, sources)| && Items(c, m, inline, sources)[i] == InlineItem(ManifestFile(c, m))
  {
    hide SourceOk, DistinctItems, InlineItem, ManifestFile, SourceItems, InlineItems, SortedInline, SortedSources, InlineOk;
    var files, walks := SortedInline(c, m, inline), SortedSources(sources);
    SortingKeeps(c, m, inline, sources);
    SourcesNormal(walks);
    InlineNormal(files);
    AllInline(files);
    ManifestIsSorted(c, m, inline);
    i :| 0 <= i < |files| && files[i] == ManifestFile(c, m);
  }

  lemma ManifestIsSorted(c: Codec, m: Manifest, inline: seq<InlineFile>)
    ensures ManifestFile(c, m) in SortedInline(c, m, inline)
  {
    hide SortBy, ManifestFile;
    var all := inline + [ManifestFile(c, m)];
    assert all[|inline|] in multiset(all);
  }

  /**
   The round trip: whatever the writer accepts, the reader extracts exactly when paths are canonical and not nested
   below files, file paths are text, the index path is free and the limits hold; the result is the manifest with its
   checksum metadata, the index, and exactly the files that were written, with their content, mode and owner.
   */
  lemma RoundTrip(c: Codec, m: Manifest, inline: seq<InlineFile>, sources: seq<Source>, l: Limits, preserve: bool)
    requires Faithful(c) && ValidManifest(m) && Survives(c, m) && Archivable(c, m, inline, sources)
    ensures
      var items := Items(c, m, inline, sources);
      var es, all := ArchiveOf(c, items), items + [IndexItem(c, items)];
      && (Extractable(es, l) && Verified(c, es) <==> Fits(all, l) && AllText(c, items))
      && (Fits(all, l) && AllText(c, items) ==>
            var x := Extracted(c, es, preserve);
            x.manifest == Sealed(m) && x.index == IndexOf(c, items) && ExactlyTheFiles(x.tree.files, all, preserve))
  {
    hide Archivable, Items, Extractable, Metadata, Observed, Headers, Fits, ExactlyTheFiles, Agrees, ValidManifest, Directories,
         DirectoryAttributes, Files, IndexItem, IndexOf, Sealed, ManifestFile, InlineItem;
    var i := ItemsNormal(c, m, inline, sources);
    var items := Items(c, m, inline, sources);
    WrittenReadsBack(c, m, items, l, i);
    var all := items + [IndexItem(c, items)];
    IndexItemIs(c, items);
    if Fits(all, l) && AllText(c, items) {
      assert Normal(all);
      SpelledAsIs(c, items);
      FilesReadBack(all, l, preserve);
    }
  }

  // ----- the round trip, said of the inputs ---------------------------------------------------------------------

  /** The permissions of an inline file; 0600 where it gives none. */
  function StoredMode(mode: nat): nat { if mode % 512 == 0 then 0x180 else mode % 512 }

  function OwnerIf(preserve: bool, uid: int, gid: int): Option<(int, int)> { if preserve then Some((uid, gid)) else None }

  lemma {:induction false} SourceHasItem(sources: seq<Source>, k: nat, i: nat)
    requires k < |sources| && i < |sources[k].walk|
    ensures VisitItem(sources[k], i) in SourceItems(sources)
    decreases |sources|
  {
    hide VisitItem;
    var n := |sources| - 1;
    AllVisited(sources[n]);
    if k < n {
      SourceHasItem(sources[..n], k, i);
    } else {
      assert WalkItems(sources[n])[i] in WalkItems(sources[n]);
    }
  }

  lemma HasInline(c: Codec, m: Manifest, inline: seq<InlineFile>, sources: seq<Source>, k: nat)
    requires k < |inline|
    ensures InlineItem(inline[k]) in Items(c, m, inline, sources)
  {
    hide SortBy, InlineItem, SourceItems, ManifestFile;
    var all, files := inline + [ManifestFile(c, m)], SortedInline(c, m, inline);
    assert all[k] == inline[k] && all[k] in multiset(all);
    assert inline[k] in multiset(files);
    var j :| 0 <= j < |files| && files[j] == inline[k];
    AllInline(files);
    assert InlineItems(files)[j] in InlineItems(files);
  }

  lemma HasVisit(c: Codec, m: Manifest, inline: seq<InlineFile>, sources: seq<Source>, k: nat, i: nat)
    requires k < |sources| && i < |sources[k].walk|
    ensures VisitItem(sources[k], i) in Items(c, m, inline, sources)
  {
    hide SortBy, VisitItem, SourceItems, InlineItems;
    var walks := SortedSources(sources);
    assert sources[k] in multiset(sources);
    assert sources[k] in multiset(walks);
    var j :| 0 <= j < |walks| && walks[j] == sources[k];
    SourceHasItem(walks, j, i);
  }

  /**
   Every inline file comes back under its path with its content and permissions, owned by root, and every file found in a
   source under the source's path and its own, with its content, permissions and owner.
   */
  lemma InputsReadBack(c: Codec, m: Manifest, inline: seq<InlineFile>, sources: seq<Source>, l: Limits, preserve: bool)
    requires Faithful(c) && ValidManifest(m) && Survives(c, m) && Archivable(c, m, inline, sources)
    requires var items := Items(c, m, inline, sources); Fits(items + [IndexItem(c, items)], l) && AllText(c, items)
    ensures
      var es := ArchiveOf(c, Items(c, m, inline, sources));
      && Extractable(es, l) && Verified(c, es)
      && (var files := Extracted(c, es, preserve).tree.files;
          && (forall k :: 0 <= k < |inline| ==>
                inline[k].archivePath in files && files[inline[k].archivePath] ==
                  File(inline[k].contents, Attributes(StoredMode(inline[k].mode), OwnerIf(preserve, 0, 0))))
          && (forall k, i :: 0 <= k < |sources| && 0 < i < |sources[k].walk| && sources[k].walk[i].kind == Regular ==>
                var v, path := sources[k].walk[i], sources[k].archivePath + "/" + sources[k].walk[i].rel;
                path in files && files[path] == File(v.content, Attributes(v.mode % 512, OwnerIf(preserve, v.uid, v.gid)))))
  {
    hide Archivable, Items, Extractable, Metadata, Observed, Headers, Fits, Agrees, ValidManifest, Directories,
         DirectoryAttributes, Files, IndexItem, IndexOf, Sealed, ManifestFile, Faithful, Survives, AllText;
    RoundTrip(c, m, inline, sources, l, preserve);
    var items := Items(c, m, inline, sources);
    var all := items + [IndexItem(c, items)];
    var files := Extracted(c, ArchiveOf(c, items), preserve).tree.files;
    forall k | 0 <= k < |inline|
      ensures inline[k].archivePath in files && files[inline[k].archivePath] ==
                File(inline[k].contents, Attributes(StoredMode(inline[k].mode), OwnerIf(preserve, 0, 0)))
    {
      HasInline(c, m, inline, sources, k);
      FoundAgain(files, all, preserve, InlineItem(inline[k]));
    }
    forall k, i | 0 <= k < |sources| && 0 < i < |sources[k].walk| && sources[k].walk[i].kind == Regular
      ensures
        var v, path := sources[k].walk[i], sources[k].archivePath + "/" + sources[k].walk[i].rel;
        path in files && files[path] == File(v.content, Attributes(v.mode % 512, OwnerIf(preserve, v.uid, v.gid)))
    {
      HasVisit(c, m, inline, sources, k, i);
      FoundAgain(files, all, preserve, VisitItem(sources[k], i));
    }
  }

  lemma FoundAgain(files: map<string, File>, all: seq<Item>, preserve: bool, it: Item)
    requires ExactlyTheFiles(files, all, preserve) && it in all && it.kind.Regular?
    ensures it.path in files && files[it.path] == StoredFile(it, preserve)
  {
    var i :| 0 <= i < |all| && all[i] == it;
  }

  /** Metadata that is found was read from a file with exactly the name the writer gives it. */
  lemma {:induction false} MetadataByName(es: seq<Entry>, path: string) returns (i: nat)
    requires (path == MANIFEST_PATH || path == INDEX_PATH) && Metadata(es, path) != []
    ensures i < |es| && es[i].name == ArchiveName(path) && es[i].kind == Regular && Metadata(es, path) == DataOf(es[i])
    decreases |es|
  {
    var n := |es| - 1;
    var e := es[n];
    if e.kind.Regular? && Name(e) == path {
      i := n;
      FixedPaths();
      NamesRoundTrip(MANIFEST_PATH);
      NamesRoundTrip(INDEX_PATH);
      hide Canonical, ValidateArchiveName;
    } else {
      i := MetadataByName(es[..n], path);
    }
  }
}
