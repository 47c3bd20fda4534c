/** The manifest of an application backup and its validation. */
module BackupManifest {
  import opened Paths

  datatype Component = Component(id: string, imageDigest: string, dependsOn: seq<string>)
  datatype Storage = Storage(component: string, id: string, disposition: string, archivePath: string, ownerUID: int, ownerGID: int)
  datatype ChecksumMetadata = ChecksumMetadata(algorithm: string, indexPath: string)

  /** createdAt is zero for the zero time; records stands for the lists that validation does not look at. */
  datatype Manifest = Manifest(
    format: string, formatVersion: int, kitproVersion: string, createdAt: int, applicationID: string,
    installationID: string, releaseID: string, runtimeGeneration: int, strategy: string,
    components: seq<Component>, storage: seq<Storage>, records: nat, checksum: ChecksumMetadata)

  const INDEX_PATH: string := "checksums/sha256.json"
  const MANIFEST_PATH: string := "manifest.json"

  predicate Identified(m: Manifest) {
    && m.format == "kitpro-application-backup" && m.formatVersion == 1
    && m.kitproVersion != "" && m.createdAt != 0 && m.applicationID != "" && m.installationID != "" && m.releaseID != ""
    && m.runtimeGeneration >= 1
    && (m.strategy == "metadata-only" || m.strategy == "cold-filesystem" || m.strategy == "cold-sqlite-filesystem")
  }

  predicate ValidComponents(cs: seq<Component>) {
    && cs != []
    && (forall i :: 0 <= i < |cs| ==> cs[i].id != "" && cs[i].imageDigest != "")
    && (forall i, j :: 0 <= i < j < |cs| ==> cs[i].id != cs[j].id)
  }

  predicate ValidSlot(s: Storage, cs: seq<Component>) {
    && (exists i :: 0 <= i < |cs| && cs[i].id == s.component) && s.id != ""
    && (s.disposition == "include" || s.disposition == "exclude-ephemeral")
    && (if s.disposition == "include" then Canonical(s.archivePath) && HasPrefix(s.archivePath, "application/") else s.archivePath == "")
  }

  predicate ValidStorage(ss: seq<Storage>, cs: seq<Component>) {
    && (forall i :: 0 <= i < |ss| ==> ValidSlot(ss[i], cs))
    && (forall i, j :: 0 <= i < j < |ss| ==> ss[i].component + "/" + ss[i].id != ss[j].component + "/" + ss[j].id)
  }

  predicate ValidManifest(m: Manifest) {
    && Identified(m) && ValidComponents(m.components) && ValidStorage(m.storage, m.components)
    && (m.checksum.algorithm != "" ==> m.checksum == ChecksumMetadata("sha256", INDEX_PATH))
  }

  /** The manifest as it is written: with its checksum metadata. */
  function Sealed(m: Manifest): (r: Manifest)
    ensures ValidManifest(m) ==> ValidManifest(r)
  {
    m.(checksum := ChecksumMetadata("sha256", INDEX_PATH))
  }

  /**
   A valid manifest declares components with distinct names, and each storage slot belongs to one of them. A slot with
   content has a path of plain elements of which the first is "application"; an excluded one has none.
   */
  lemma ValidManifestMeans(m: Manifest, i: nat)
    requires ValidManifest(m) && i < |m.storage|
    ensures m.format == "kitpro-application-backup" && m.formatVersion == 1 && m.runtimeGeneration >= 1
    ensures forall j, k :: 0 <= j < k < |m.components| ==> m.components[j].id != m.components[k].id
    ensures exists k :: 0 <= k < |m.components| && m.components[k].id == m.storage[i].component
    ensures m.storage[i].disposition == "include" || m.storage[i].disposition == "exclude-ephemeral"
    ensures m.storage[i].disposition == "exclude-ephemeral" ==> m.storage[i].archivePath == ""
    ensures
      var path := m.storage[i].archivePath;
      m.storage[i].disposition == "include" ==>
        Split(path)[0] == "application" && |Split(path)| > 1 && forall k :: 0 <= k < |Split(path)| ==> Plain(Split(path)[k])
  {
    hide Split, Canonical;
    assert ValidSlot(m.storage[i], m.components);
    var path := m.storage[i].archivePath;
    if m.storage[i].disposition == "include" {
      var rest := path[|"application/"|..];
      assert path == "application" + "/" + rest;
      SplitAtSlash("application", rest);
      CanonicalExactly(path);
    }
  }
}
