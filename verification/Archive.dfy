/**
 Reading an application backup: measuring the container, and extracting it with the comparison of its payload
 against the checksum index. The archive is the sequence of its entries.
 */
module Archive {
  import opened Options
  import opened Paths
  import opened Checksums
  import opened BackupManifest

  newtype byte = x: int | 0 <= x < 256
  type Bytes = seq<byte>

  datatype Kind = Directory | Regular | Special

  /** An entry: its header, and the data that follows it. */
  datatype Entry = Entry(name: string, kind: Kind, mode: nat, uid: int, gid: int, size: int, content: Bytes)

  datatype Limits = Limits(maxEntries: int, maxFileBytes: int, maxTotalBytes: int)

  /** Unset limits are replaced by the default ones. */
  function Effective(l: Limits): (r: Limits)
    ensures r.maxEntries > 0 && r.maxFileBytes > 0 && r.maxTotalBytes > 0
    ensures l.maxEntries > 0 && l.maxFileBytes > 0 && l.maxTotalBytes > 0 ==> r == l
  {
    if l.maxEntries <= 0 || l.maxFileBytes <= 0 || l.maxTotalBytes <= 0
    then Limits(1_000_000, 0x100_0000_0000, 0x400_0000_0000) else l
  }

  /**
   The digest and the JSON encodings, which the reader and the writer share. A character of a name is one byte of it;
   text is what JSON makes of a name: bytes that are not UTF-8 are replaced.
   */
  datatype Codec = Codec(
    digest: Bytes -> string, text: string -> string,
    manifestBytes: Manifest -> Bytes, manifestFrom: Bytes -> Option<Manifest>,
    indexBytes: ChecksumIndex -> Bytes, indexFrom: Bytes -> Option<ChecksumIndex>)

  function NameOf(e: Entry): Option<string> { ValidateArchiveName(e.name) }
  function Name(e: Entry): string { if NameOf(e).Some? then NameOf(e).value else "" }

  ghost function Names(es: seq<Entry>): set<string> { set i | 0 <= i < |es| :: Name(es[i]) }

  ghost function Total(es: seq<Entry>): int { if es == [] then 0 else Total(es[..|es| - 1]) + es[|es| - 1].size }

  ghost predicate Distinct(es: seq<Entry>) { forall i, j :: 0 <= i < j < |es| ==> Name(es[i]) != Name(es[j]) }

  // ----- the container ------------------------------------------------------------------------------------

  predicate EntryOk(e: Entry, l: Limits) { NameOf(e).Some? && e.kind != Special && 0 <= e.size <= l.maxFileBytes }

  /** Safe, distinct names of files and directories, within the limits. */
  ghost predicate Container(es: seq<Entry>, l: Limits) {
    && |es| <= l.maxEntries && Total(es) <= l.maxTotalBytes
    && (forall i :: 0 <= i < |es| ==> EntryOk(es[i], l)) && Distinct(es)
  }

  lemma NamesExtend(es: seq<Entry>, k: nat)
    requires k < |es|
    ensures Names(es[..k + 1]) == Names(es[..k]) + {Name(es[k])}
    ensures Total(es[..k + 1]) == Total(es[..k]) + es[k].size
    ensures Distinct(es[..k + 1]) <==> Distinct(es[..k]) && Name(es[k]) !in Names(es[..k])
  {
    hide Name;
    var some := es[..k + 1];
    assert some[..k] == es[..k] && some == es[..k] + [es[k]];
    assert forall i :: 0 <= i < k ==> some[i] == es[..k][i];
    if Distinct(es[..k]) && Name(es[k]) !in Names(es[..k]) {
      forall i, j | 0 <= i < j < |some| ensures Name(some[i]) != Name(some[j]) {
        assert es[..k][i] == some[i];
        if j < k { assert es[..k][j] == some[j]; }
      }
    }
  }

  lemma ContainerExtends(es: seq<Entry>, k: nat, l: Limits)
    requires k < |es|
    ensures Container(es[..k + 1], l) && es[k].size >= 0 <==>
            && Container(es[..k], l) && k + 1 <= l.maxEntries && EntryOk(es[k], l)
            && Name(es[k]) !in Names(es[..k]) && Total(es[..k]) <= l.maxTotalBytes - es[k].size
  {
    hide Name, Names, Total, Distinct, EntryOk;
    NamesExtend(es, k);
    var some := es[..k + 1];
    assert some == es[..k] + [es[k]];
    assert forall i :: 0 <= i < k ==> some[i] == es[..k][i];
    assert some[k] == es[k];
    if EntryOk(es[k], l) { OkSize(es[k], l); }
  }

  lemma OkSize(e: Entry, l: Limits)
    requires EntryOk(e, l)
    ensures e.size >= 0
  {
  }

  lemma {:induction false} ContainerPrefix(es: seq<Entry>, k: nat, l: Limits)
    requires k <= |es| && Container(es, l)
    ensures Container(es[..k], l)
    decreases |es|
  {
    hide Container, EntryOk, Name, Names, Total;
    if k == |es| {
      assert es[..k] == es;
    } else {
      var n := |es| - 1;
      assert es[..n + 1] == es;
      OkAt(es, n, l);
      ContainerExtends(es, n, l);
      ContainerPrefix(es[..n], k, l);
      assert es[..n][..k] == es[..k];
    }
  }

  /** Measures the container without its data: the declared bytes and the number of entries. */
  method Measure(es: seq<Entry>, limits: Limits) returns (r: Option<(int, int)>)
    ensures r.Some? <==> Container(es, Effective(limits))
    ensures r.Some? ==> r.value == (Total(es), |es|)
  {
    hide Container, EntryOk, Name, Names, Total;
    var l := Effective(limits);
    var seen: set<string>, total := {}, 0;
    NothingYet(es, l);
    for k := 0 to |es|
      invariant seen == Names(es[..k]) && total == Total(es[..k])
      invariant Container(es[..k], l)
    {
      var e := es[k];
      ContainerExtends(es, k, l);
      NamesExtend(es, k);
      if Container(es, l) { ContainerPrefix(es, k + 1, l); OkAt(es, k, l); }
      if k + 1 > l.maxEntries || !EntryOk(e, l) || Name(e) in seen || total > l.maxTotalBytes - e.size { return None; }
      seen, total := seen + {Name(e)}, total + e.size;
    }
    assert es[..|es|] == es;
    r := Some((total, |es|));
  }

  lemma OkAt(es: seq<Entry>, k: nat, l: Limits)
    requires k < |es| && Container(es, l)
    ensures EntryOk(es[k], l) && es[k].size >= 0
  {
  }

  lemma NothingYet(es: seq<Entry>, l: Limits)
    requires l.maxEntries > 0 && l.maxTotalBytes > 0
    ensures Names(es[..0]) == {} && Total(es[..0]) == 0 && Container(es[..0], l)
  {
  }

  // ----- extraction ------------------------------------------------------------------------------------------

  /** Owner is recorded only when ownership is preserved. */
  datatype Attributes = Attributes(mode: nat, owner: Option<(int, int)>)
  datatype File = File(content: Bytes, attributes: Attributes)

  /** What an extraction leaves below its destination. */
  datatype Tree = Tree(files: map<string, File>, directories: set<string>, attributes: map<string, Attributes>)
  datatype Extraction = Extraction(manifest: Manifest, index: ChecksumIndex, tree: Tree)

  function Permissions(mode: nat): nat { mode % 512 }

  function AttributesOf(e: Entry, preserve: bool): Attributes {
    Attributes(Permissions(e.mode), if preserve then Some((e.uid, e.gid)) else None)
  }

  /** A regular entry's data is complete, and the metadata files are small. */
  predicate BodyOk(e: Entry) {
    e.kind.Regular? ==>
      && 0 <= e.size <= |e.content|
      && (Name(e) == MANIFEST_PATH ==> e.size <= 0x40_0000) && (Name(e) == INDEX_PATH ==> e.size <= 0x800_0000)
  }

  function DataOf(e: Entry): Bytes { if 0 <= e.size <= |e.content| then e.content[..e.size] else [] }
  function FileOf(e: Entry, preserve: bool): File { File(DataOf(e), AttributesOf(e, preserve)) }

  /** The data is kept for the metadata files only under their exact names. */
  function Captured(e: Entry): Bytes {
    if e.name == ArchiveName(MANIFEST_PATH) || e.name == ArchiveName(INDEX_PATH) then DataOf(e) else []
  }

  function ObservedEntry(c: Codec, e: Entry): ChecksumEntry {
    ChecksumEntry(Name(e), c.digest(DataOf(e)), e.size, Permissions(e.mode), e.uid, e.gid)
  }

  function Files(es: seq<Entry>, preserve: bool): map<string, File> {
    if es == [] then map[]
    else
      var m, e := Files(es[..|es| - 1], preserve), es[|es| - 1];
      if e.kind.Regular? then m[Name(e) := FileOf(e, preserve)] else m
  }

  function Directories(es: seq<Entry>): set<string> {
    if es == [] then {}
    else
      var e := es[|es| - 1];
      Directories(es[..|es| - 1]) + Ancestors(Name(e)) + if e.kind.Regular? then {} else {Name(e)}
  }

  function DirectoryAttributes(es: seq<Entry>, preserve: bool): map<string, Attributes> {
    if es == [] then map[]
    else
      var m, e := DirectoryAttributes(es[..|es| - 1], preserve), es[|es| - 1];
      if e.kind.Regular? then m else m[Name(e) := AttributesOf(e, preserve)]
  }

  /** The payload read: every file but the index. */
  function Observed(c: Codec, es: seq<Entry>): map<string, ChecksumEntry> {
    if es == [] then map[]
    else
      var m, e := Observed(c, es[..|es| - 1]), es[|es| - 1];
      if e.kind.Regular? && Name(e) != INDEX_PATH then m[Name(e) := ObservedEntry(c, e)] else m
  }

  /** The captured data of the last file with this path. */
  function Metadata(es: seq<Entry>, path: string): Bytes {
    if es == [] then []
    else
      var e := es[|es| - 1];
      if e.kind.Regular? && Name(e) == path then Captured(e) else Metadata(es[..|es| - 1], path)
  }

  /** An entry that would have to lie below a file. */
  predicate Blocks(f: Entry, e: Entry) { f.kind.Regular? && Ancestor(Name(f), Name(e)) }

  ghost predicate Unblocked(es: seq<Entry>) { forall i, j :: 0 <= i < |es| && 0 <= j < |es| ==> !Blocks(es[i], es[j]) }

  predicate Readable(e: Entry) { BodyOk(e) && Within(Name(e)) }

  /** Every entry can be read and put below the destination. */
  ghost predicate Extractable(es: seq<Entry>, l: Limits) {
    Container(es, l) && (forall i :: 0 <= i < |es| ==> Readable(es[i])) && Unblocked(es)
  }

  /** The metadata is present and valid, and the index agrees with the payload. */
  ghost predicate Verified(c: Codec, es: seq<Entry>) {
    var m, x := Metadata(es, MANIFEST_PATH), Metadata(es, INDEX_PATH);
    && m != [] && x != [] && c.manifestFrom(m).Some? && ValidManifest(c.manifestFrom(m).value)
    && c.indexFrom(x).Some? && Agrees(c.indexFrom(x).value, Observed(c, es))
  }

  // ----- where files and directories stand ---------------------------------------------------------------

  lemma {:induction false} FilesExactly(es: seq<Entry>, preserve: bool, name: string)
    ensures name in Files(es, preserve) <==> exists i :: 0 <= i < |es| && es[i].kind.Regular? && Name(es[i]) == name
  {
    hide Name, FileOf;
    if es != [] {
      var n := |es| - 1;
      FilesExactly(es[..n], preserve, name);
      assert forall i :: 0 <= i < n ==> es[..n][i] == es[i];
    }
  }

  lemma {:induction false} DirectoriesExactly(es: seq<Entry>, name: string)
    ensures name in Directories(es) <==>
            exists i :: 0 <= i < |es| && (Ancestor(name, Name(es[i])) || (!es[i].kind.Regular? && Name(es[i]) == name))
  {
    hide Name, Ancestors, Ancestor;
    if es != [] {
      var n := |es| - 1;
      DirectoriesExactly(es[..n], name);
      AncestorsExactly(name, Name(es[n]));
      assert forall i :: 0 <= i < n ==> es[..n][i] == es[i];
    }
  }

  /** With distinct names each file is found under its own. */
  lemma {:induction false} FileAt(es: seq<Entry>, preserve: bool, i: nat)
    requires i < |es| && es[i].kind.Regular? && Distinct(es)
    ensures Name(es[i]) in Files(es, preserve) && Files(es, preserve)[Name(es[i])] == FileOf(es[i], preserve)
  {
    hide Name, FileOf;
    var n := |es| - 1;
    if i < n { FileAt(es[..n], preserve, i); }
  }

  lemma {:induction false} ObservedAt(c: Codec, es: seq<Entry>, i: nat)
    requires i < |es| && es[i].kind.Regular? && Name(es[i]) != INDEX_PATH && Distinct(es)
    ensures Name(es[i]) in Observed(c, es) && Observed(c, es)[Name(es[i])] == ObservedEntry(c, es[i])
  {
    hide Name, ObservedEntry;
    var n := |es| - 1;
    if i < n { ObservedAt(c, es[..n], i); }
  }

  lemma {:induction false} ObservedExactly(c: Codec, es: seq<Entry>, name: string)
    ensures name in Observed(c, es) <==>
            exists i :: 0 <= i < |es| && es[i].kind.Regular? && Name(es[i]) != INDEX_PATH && Name(es[i]) == name
  {
    hide Name, ObservedEntry;
    if es != [] {
      var n := |es| - 1;
      ObservedExactly(c, es[..n], name);
      assert forall i :: 0 <= i < n ==> es[..n][i] == es[i];
    }
  }

  /** What creating the entry meets: no file on the way, and nothing yet where a file goes. */
  predicate Placeable(e: Entry, files: map<string, File>, directories: set<string>) {
    && Ancestors(Name(e)) !! files.Keys && Name(e) !in files
    && (e.kind.Regular? ==> Name(e) !in directories)
  }

  lemma UnblockedExtends(es: seq<Entry>, k: nat)
    requires k < |es|
    ensures Unblocked(es[..k + 1]) <==>
            Unblocked(es[..k]) && forall j :: 0 <= j < k ==> !Blocks(es[j], es[k]) && !Blocks(es[k], es[j])
  {
    hide Name;
    var some := es[..k + 1];
    assert forall i :: 0 <= i < k ==> some[i] == es[..k][i] == es[i];
    assert some[k] == es[k];
    if Unblocked(some) {
      forall i, j | 0 <= i < k && 0 <= j < k ensures !Blocks(es[..k][i], es[..k][j]) {
        assert !Blocks(some[i], some[j]);
      }
      forall j | 0 <= j < k ensures !Blocks(es[j], es[k]) && !Blocks(es[k], es[j]) {
        assert !Blocks(some[j], some[k]) && !Blocks(some[k], some[j]);
      }
    }
  }

  /** Whatever the order of the entries, creation succeeds exactly when no entry lies below a file. */
  lemma PlaceableExactly(es: seq<Entry>, k: nat, preserve: bool)
    requires k < |es| && Unblocked(es[..k]) && Distinct(es[..k + 1])
    ensures Placeable(es[k], Files(es[..k], preserve), Directories(es[..k])) <==> Unblocked(es[..k + 1])
  {
    hide Name, Ancestor, Ancestors, Files, Directories, Distinct, Unblocked;
    var e, before := es[k], es[..k];
    var files, directories := Files(before, preserve), Directories(before);
    NamesExtend(es, k);
    NewName(es, k);
    UnblockedExtends(es, k);
    FilesExactly(before, preserve, Name(e));
    DirectoriesExactly(before, Name(e));
    forall j | 0 <= j < k ensures Blocks(es[j], e) ==> Name(es[j]) in Ancestors(Name(e)) && Name(es[j]) in files {
      assert before[j] == es[j];
      AncestorsExactly(Name(es[j]), Name(e));
      FilesExactly(before, preserve, Name(es[j]));
    }
    forall a | a in Ancestors(Name(e)) && a in files ensures exists j :: 0 <= j < k && Blocks(es[j], e) {
      AncestorsExactly(a, Name(e));
      FilesExactly(before, preserve, a);
      var j :| 0 <= j < k && before[j].kind.Regular? && Name(before[j]) == a;
      assert Blocks(es[j], e);
    }
    forall j | 0 <= j < k ensures Blocks(e, es[j]) ==> Name(e) in directories {
      assert before[j] == es[j];
    }
    if e.kind.Regular? && Name(e) in directories {
      var j :| 0 <= j < k && (Ancestor(Name(e), Name(before[j])) || (!before[j].kind.Regular? && Name(before[j]) == Name(e)));
      assert before[j] == es[j];
      assert Blocks(e, es[j]);
    }
  }

  lemma NewName(es: seq<Entry>, k: nat)
    requires k < |es| && Distinct(es[..k + 1])
    ensures forall j :: 0 <= j < k ==> Name(es[j]) != Name(es[k]) && Name(es[..k][j]) != Name(es[k])
  {
    hide Name;
    forall j | 0 <= j < k ensures Name(es[j]) != Name(es[k]) {
      assert es[..k + 1][j] == es[j] && es[..k + 1][k] == es[k];
    }
  }

  /** The checks on one entry, given what came before it. */
  predicate EntryAccepted(e: Entry, count: nat, l: Limits, seen: set<string>, total: int, tree: Tree) {
    && count + 1 <= l.maxEntries && EntryOk(e, l) && Name(e) !in seen && total <= l.maxTotalBytes - e.size
    && Readable(e) && Placeable(e, tree.files, tree.directories)
  }

  function TreeOf(es: seq<Entry>, preserve: bool): Tree {
    Tree(Files(es, preserve), Directories(es), DirectoryAttributes(es, preserve))
  }

  lemma ExtractableExtends(es: seq<Entry>, k: nat, l: Limits, preserve: bool)
    requires k < |es| && Extractable(es[..k], l)
    ensures Extractable(es[..k + 1], l) <==>
            EntryAccepted(es[k], k, l, Names(es[..k]), Total(es[..k]), TreeOf(es[..k], preserve))
  {
    hide Name, Names, Total, EntryOk, Readable, Placeable, Files, Directories, DirectoryAttributes, Unblocked, Blocks, Distinct;
    ContainerExtends(es, k, l);
    var some := es[..k + 1];
    assert forall i :: 0 <= i < k ==> some[i] == es[..k][i];
    assert some[k] == es[k];
    if Container(some, l) { OkAt(some, k, l); }
    if EntryOk(es[k], l) { OkSize(es[k], l); }
    if Distinct(some) { PlaceableExactly(es, k, preserve); }
    if Extractable(some, l) { assert Readable(some[k]); }
  }

  lemma {:induction false} ExtractablePrefix(es: seq<Entry>, k: nat, l: Limits)
    requires k <= |es| && Extractable(es, l)
    ensures Extractable(es[..k], l)
  {
    hide Container, Readable, Blocks;
    ContainerPrefix(es, k, l);
    var some := es[..k];
    forall i, j | 0 <= i < k && 0 <= j < k ensures !Blocks(some[i], some[j]) { assert !Blocks(es[i], es[j]); }
  }

  lemma Grow(c: Codec, es: seq<Entry>, k: nat, preserve: bool)
    requires k < |es|
    ensures
      var e, t, some := es[k], TreeOf(es[..k], preserve), es[..k + 1];
      && TreeOf(some, preserve) == Grown(t, e, preserve)
      && Observed(c, some) == (if e.kind.Regular? && Name(e) != INDEX_PATH
                               then Observed(c, es[..k])[Name(e) := ObservedEntry(c, e)] else Observed(c, es[..k]))
      && forall path :: Metadata(some, path) == (if e.kind.Regular? && Name(e) == path then Captured(e) else Metadata(es[..k], path))
  {
    hide Name, Ancestors, ObservedEntry, FileOf, AttributesOf, Captured;
    var some := es[..k + 1];
    assert some[..k] == es[..k] && some[k] == es[k];
  }

  /** The tree after one more entry: a file with the directories above it, or a directory with them. */
  function Grown(t: Tree, e: Entry, preserve: bool): Tree {
    if e.kind.Regular? then
      t.(files := t.files[Name(e) := FileOf(e, preserve)], directories := t.directories + Ancestors(Name(e)))
    else
      t.(directories := t.directories + Ancestors(Name(e)) + {Name(e)},
         attributes := t.attributes[Name(e) := AttributesOf(e, preserve)])
  }

  lemma NothingExtracted(c: Codec, es: seq<Entry>, l: Limits, preserve: bool)
    requires l.maxEntries > 0 && l.maxTotalBytes > 0
    ensures TreeOf(es[..0], preserve) == Tree(map[], {}, map[]) && Observed(c, es[..0]) == map[] && Extractable(es[..0], l)
    ensures forall path :: Metadata(es[..0], path) == []
  {
  }

  /** Reads every entry of the archive in turn, creating files and directories and observing the payload. */
  method ReadEntries(c: Codec, es: seq<Entry>, l: Limits, preserve: bool)
    returns (ok: bool, tree: Tree, observed: map<string, ChecksumEntry>, manifestData: Bytes, indexData: Bytes)
    requires l.maxEntries > 0 && l.maxTotalBytes > 0
    ensures ok <==> Extractable(es, l)
    ensures ok ==> tree == TreeOf(es, preserve) && observed == Observed(c, es)
    ensures ok ==> manifestData == Metadata(es, MANIFEST_PATH) && indexData == Metadata(es, INDEX_PATH)
  {
    hide Name, Names, Total, EntryAccepted, Extractable, TreeOf, Observed, Metadata, Captured, ObservedEntry, Ancestors, FileOf;
    var seen: set<string>, total := {}, 0;
    ok, tree, observed, manifestData, indexData := true, Tree(map[], {}, map[]), map[], [], [];
    NothingYet(es, l);
    NothingExtracted(c, es, l, preserve);
    for k := 0 to |es|
      invariant Extractable(es[..k], l)
      invariant seen == Names(es[..k]) && total == Total(es[..k])
      invariant tree == TreeOf(es[..k], preserve) && observed == Observed(c, es[..k])
      invariant manifestData == Metadata(es[..k], MANIFEST_PATH) && indexData == Metadata(es[..k], INDEX_PATH)
    {
      var e := es[k];
      ExtractableExtends(es, k, l, preserve);
      NamesExtend(es, k);
      Grow(c, es, k, preserve);
      if Extractable(es, l) { ExtractablePrefix(es, k + 1, l); }
      if !EntryAccepted(e, k, l, seen, total, tree) { ok := false; return; }
      seen, total := seen + {Name(e)}, total + e.size;
      tree := Grown(tree, e, preserve);
      if e.kind.Regular? {
        observed := observed[Name(e) := ObservedEntry(c, e)];
        if Name(e) == MANIFEST_PATH { manifestData := Captured(e); }
        if Name(e) == INDEX_PATH {
          indexData := Captured(e);
          NotObserved(c, es[..k]);
          observed := map name | name in observed && name != Name(e) :: observed[name];
        }
      }
    }
    assert es[..|es|] == es;
  }

  lemma {:induction false} NotObserved(c: Codec, es: seq<Entry>)
    ensures INDEX_PATH !in Observed(c, es)
  {
    hide Name, ObservedEntry;
    if es != [] { NotObserved(c, es[..|es| - 1]); }
  }

  /** Extraction: all the entries, then the metadata and the comparison of the payload with the index. */
  method Extract(c: Codec, es: seq<Entry>, limits: Limits, preserve: bool) returns (r: Option<Extraction>)
    ensures r.Some? <==> Extractable(es, Effective(limits)) && Verified(c, es)
    ensures r.Some? ==> r.value == Extracted(c, es, preserve)
  {
    hide Extractable, TreeOf, Observed, Metadata, Agrees, ValidManifest;
    var ok, tree, observed, manifestData, indexData := ReadEntries(c, es, Effective(limits), preserve);
    if !ok || |manifestData| == 0 || |indexData| == 0 { return None; }
    var manifest := c.manifestFrom(manifestData);
    if manifest.None? || !ValidManifest(manifest.value) { return None; }
    var index := c.indexFrom(indexData);
    if index.None? { return None; }
    var agrees := VerifyChecksums(index.value, observed);
    if !agrees { return None; }
    r := Some(Extraction(manifest.value, index.value, tree));
  }

  ghost function Extracted(c: Codec, es: seq<Entry>, preserve: bool): Extraction
    requires Verified(c, es)
  {
    Extraction(c.manifestFrom(Metadata(es, MANIFEST_PATH)).value, c.indexFrom(Metadata(es, INDEX_PATH)).value, TreeOf(es, preserve))
  }

  // ----- what a successful extraction means ----------------------------------------------------------------------

  lemma {:induction false} MetadataAt(es: seq<Entry>, i: nat)
    requires i < |es| && es[i].kind.Regular? && Distinct(es)
    ensures Metadata(es, Name(es[i])) == Captured(es[i])
  {
    hide Name, Captured;
    var n := |es| - 1;
    if i < n { MetadataAt(es[..n], i); }
  }

  /** An index entry that records a file. */
  predicate Records(c: Codec, x: ChecksumEntry, f: File, preserve: bool) {
    && x.digest == c.digest(f.content) && x.size == |f.content| && x.mode == f.attributes.mode
    && (preserve ==> f.attributes.owner == Some((x.uid, x.gid)))
  }

  /** Exactly one entry for every file but the index itself, and a file for every entry. */
  ghost predicate RecordsAll(c: Codec, x: seq<ChecksumEntry>, files: map<string, File>, preserve: bool) {
    && (forall name :: name in files && name != INDEX_PATH ==>
          exists k :: 0 <= k < |x| && x[k].path == name && Records(c, x[k], files[name], preserve))
    && (forall k :: 0 <= k < |x| ==> x[k].path in files && x[k].path != INDEX_PATH)
    && DistinctPaths(x)
  }

  /**
   After a successful extraction every payload file has exactly one index entry, with its path, digest, size,
   mode and owner, and every index entry is that of a payload file.
   */
  lemma IndexIsThePayload(c: Codec, es: seq<Entry>, l: Limits, preserve: bool)
    requires Extractable(es, l) && Verified(c, es)
    ensures RecordsAll(c, Extracted(c, es, preserve).index.files, Extracted(c, es, preserve).tree.files, preserve)
  {
    hide Container, Metadata, Observed, Files, Name, Describes, ValidManifest, Directories, DirectoryAttributes;
    var x, files := Extracted(c, es, preserve).index.files, Extracted(c, es, preserve).tree.files;
    ContainerDistinct(es, l);
    forall name | name in files && name != INDEX_PATH
      ensures exists k :: 0 <= k < |x| && x[k].path == name && Records(c, x[k], files[name], preserve)
    {
      FilesExactly(es, preserve, name);
      var i :| 0 <= i < |es| && es[i].kind.Regular? && Name(es[i]) == name;
      FileAt(es, preserve, i);
      ObservedAt(c, es, i);
      assert name in PathsOf(x);
      var k :| 0 <= k < |x| && x[k].path == name;
      assert Readable(es[i]);
      RecordsPayload(c, es[i], x[k], Observed(c, es), preserve);
    }
    forall k | 0 <= k < |x| ensures x[k].path in files && x[k].path != INDEX_PATH {
      assert x[k].path in PathsOf(x);
      ObservedExactly(c, es, x[k].path);
      FilesExactly(es, preserve, x[k].path);
    }
  }

  lemma ContainerDistinct(es: seq<Entry>, l: Limits)
    requires Container(es, l)
    ensures Distinct(es)
  {
  }

  lemma RecordsPayload(c: Codec, e: Entry, x: ChecksumEntry, observed: map<string, ChecksumEntry>, preserve: bool)
    requires e.kind.Regular? && Readable(e) && x.path == Name(e)
    requires Describes(x, observed) && observed[x.path] == ObservedEntry(c, e)
    ensures Records(c, x, FileOf(e, preserve), preserve)
  {
  }

  /** Two contents with the same digest. */
  ghost predicate Collision(c: Codec) { exists a: Bytes, b: Bytes :: a != b && c.digest(a) == c.digest(b) }

  /** An index fixes the payload it records, or the digest has a collision. */
  lemma SameIndexSameFiles(c: Codec, x: seq<ChecksumEntry>, f: map<string, File>, g: map<string, File>, preserve: bool, name: string)
    requires RecordsAll(c, x, f, preserve) && RecordsAll(c, x, g, preserve) && name != INDEX_PATH
    ensures name in f <==> name in g
    ensures name in f ==> Collision(c) || f[name].content == g[name].content
    ensures name in f ==> f[name].attributes.mode == g[name].attributes.mode
    ensures name in f && preserve ==> f[name].attributes.owner == g[name].attributes.owner
  {
    if name in f {
      var k :| 0 <= k < |x| && x[k].path == name && Records(c, x[k], f[name], preserve);
      assert name in g;
      var m :| 0 <= m < |x| && x[m].path == name && Records(c, x[m], g[name], preserve);
      assert k == m;
    }
  }

  /** Two archives that extract with the same index have the same payload, or the digest has a collision. */
  lemma IndexFixesPayload(c: Codec, es: seq<Entry>, fs: seq<Entry>, l: Limits, preserve: bool, name: string)
    requires Extractable(es, l) && Verified(c, es) && Extractable(fs, l) && Verified(c, fs)
    requires Extracted(c, es, preserve).index == Extracted(c, fs, preserve).index && name != INDEX_PATH
    ensures
      var f, g := Extracted(c, es, preserve).tree.files, Extracted(c, fs, preserve).tree.files;
      && (name in f <==> name in g)
      && (name in f ==> f[name].attributes.mode == g[name].attributes.mode)
      && (name in f && preserve ==> f[name].attributes.owner == g[name].attributes.owner)
      && (name in f ==> Collision(c) || f[name].content == g[name].content)
  {
    hide Extractable, Verified, Extracted, RecordsAll, Collision;
    IndexIsThePayload(c, es, l, preserve);
    IndexIsThePayload(c, fs, l, preserve);
    SameIndexSameFiles(c, Extracted(c, es, preserve).index.files, Extracted(c, es, preserve).tree.files,
                       Extracted(c, fs, preserve).tree.files, preserve, name);
  }

  /**
   What is extracted is safe: files and directories only, within the limits, under the archive's root, with paths whose
   elements are all plain, so that none leaves the destination.
   */
  lemma ExtractedIsSafe(es: seq<Entry>, l: Limits, i: nat)
    requires Extractable(es, l) && i < |es|
    ensures es[i].kind == Directory || es[i].kind == Regular
    ensures 0 <= es[i].size <= l.maxFileBytes && |es| <= l.maxEntries && Total(es) <= l.maxTotalBytes
    ensures HasPrefix(es[i].name, ROOT + "/")
    ensures
      var name := Name(es[i]);
      && (es[i].name == ROOT + "/" + name || es[i].name == ROOT + "/" + name + "/")
      && '\\' !in name && forall k :: 0 <= k < |Split(name)| ==> Plain(Split(name)[k])
  {
    hide Canonical, Split, Within, ValidateArchiveName, Total;
    var e := es[i];
    assert EntryOk(e, l) && Readable(e);
    AcceptedName(e.name);
    CanonicalWithin(Name(e));
    CanonicalExactly(Name(e));
  }

  /** An accepted entry name is the root and a canonical path, with or without a slash at its end. */
  lemma AcceptedName(name: string)
    requires ValidateArchiveName(name).Some?
    ensures
      var path := ValidateArchiveName(name).value;
      && Canonical(path) && HasPrefix(name, ROOT + "/")
      && (name == ROOT + "/" + path || name == ROOT + "/" + path + "/")
  {
    hide Canonical;
    var trimmed := TrimSlash(name);
    assert trimmed == ROOT + "/" + trimmed[|ROOT| + 1..];
    if HasSuffix(name, "/") { assert name == trimmed + "/"; }
  }
}
