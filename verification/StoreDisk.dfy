/** What a local store keeps on disk (store/): a content-addressed blob set, the authoritative
    root index, and the rebuildable catalog. */
module StoreDisk {
  import opened Prelude

  type Digest = string

  datatype Descriptor = Descriptor(digest: Digest, size: nat, component: Option<string>)

  datatype Manifest = Manifest(config: Digest, layers: seq<Descriptor>, subject: Digest)

  /** The digest function and its syntax check, the decoders of manifests and of valid
      configurations, whose values are only compared, the shape checks of metadata-only
      verification, and verification of one root against a store's blobs. */
  datatype Codec = Codec(
    hash: Bytes -> Digest,
    wellFormed: Digest -> bool,
    manifest: Bytes -> Option<Manifest>,
    config: Bytes -> Option<string>,
    shape: Manifest -> bool,
    verify: (map<Digest, Bytes>, Digest) -> bool)

  datatype Record = Record(subject: Digest, source: string, origins: seq<string>, updatedAt: int)

  const NO_RECORD := Record("", "", [], 0)

  const CATALOG_VERSION := 1

  datatype CatalogFile =
    | Missing
    | Unreadable
    | Oversized
    | Malformed
    | Catalog(version: int, documents: map<Digest, Record>)

  datatype LoadError = IoError | InvalidCatalog | FutureVersion

  /** loadCatalog. A missing catalog is empty; only a newer version is told apart from other
      invalid content. */
  function LoadCatalog(file: CatalogFile): Result<map<Digest, Record>, LoadError> {
    match file
    case Missing => Ok(map[])
    case Unreadable => Err(IoError)
    case Oversized => Err(InvalidCatalog)
    case Malformed => Err(InvalidCatalog)
    case Catalog(version, documents) =>
      if version == CATALOG_VERSION then Ok(documents)
      else if version > CATALOG_VERSION then Err(FutureVersion)
      else Err(InvalidCatalog)
  }

  datatype Disk = Disk(blobs: map<Digest, Bytes>, index: seq<Digest>, catalog: CatalogFile)

  function SaveCatalog(disk: Disk, documents: map<Digest, Record>): Disk {
    disk.(catalog := Catalog(CATALOG_VERSION, documents))
  }

  /** fetchMetadata and the decoding of one root manifest. */
  function ReadManifest(codec: Codec, blobs: map<Digest, Bytes>, root: Digest): Option<Manifest> {
    if root in blobs && |blobs[root]| <= MAX_METADATA_SIZE && codec.hash(blobs[root]) == root
    then codec.manifest(blobs[root]) else None
  }

  /** The configuration and components a manifest names. */
  function Refs(m: Manifest): set<Digest> {
    {m.config} + (set i | 0 <= i < |m.layers| :: m.layers[i].digest)
  }

  /** A root is complete when its manifest is readable and every blob it names is present. */
  predicate Complete(codec: Codec, blobs: map<Digest, Bytes>, root: Digest) {
    var m := ReadManifest(codec, blobs, root);
    m.Some? && Refs(m.value) <= blobs.Keys
  }

  ghost predicate Closed(codec: Codec, disk: Disk) {
    forall r :: r in disk.index ==> Complete(codec, disk.blobs, r)
  }

  /** Root digests and blob digests are kept apart: the assumption of the store's design under
      which removing one root cannot take away content of another. */
  ghost predicate Apart(codec: Codec, isRoot: Digest -> bool, disk: Disk) {
    forall r :: r in disk.index ==>
      isRoot(r) && forall m :: ReadManifest(codec, disk.blobs, r) == Some(m) ==>
        forall d :: d in Refs(m) ==> !isRoot(d)
  }

  function Without(index: seq<Digest>, root: Digest): (r: seq<Digest>)
    ensures forall d :: d in r <==> d in index && d != root
  {
    if index == [] then []
    else if index[0] == root then Without(index[1..], root)
    else [index[0]] + Without(index[1..], root)
  }

  function With(index: seq<Digest>, root: Digest): seq<Digest> {
    if root in index then index else index + [root]
  }

  /** Pushing a blob. */
  function PushBlob(disk: Disk, d: Digest, content: Bytes): Disk {
    disk.(blobs := disk.blobs[d := content])
  }

  /** Pushing a manifest stores it and rewrites index.json from the handle's own index. */
  function PushManifest(disk: Disk, oci: seq<Digest>, d: Digest, content: Bytes): Disk {
    disk.(blobs := disk.blobs[d := content], index := With(oci, d))
  }

  /** Deleting a manifest drops the blob and rewrites index.json from the handle's own index. */
  function DeleteManifest(disk: Disk, oci: seq<Digest>, d: Digest): Disk {
    disk.(blobs := disk.blobs - {d}, index := Without(oci, d))
  }

  /** Adding content never invalidates a complete root. */
  lemma AddingKeepsComplete(codec: Codec, blobs: map<Digest, Bytes>, d: Digest, content: Bytes, root: Digest)
    requires Complete(codec, blobs, root) && d !in blobs
    ensures Complete(codec, blobs[d := content], root)
    ensures ReadManifest(codec, blobs[d := content], root) == ReadManifest(codec, blobs, root)
  {
  }

  /** Dropping content keeps a root complete when the root and its references stay. */
  lemma DroppingKeepsComplete(codec: Codec, blobs: map<Digest, Bytes>, d: Digest, root: Digest)
    requires Complete(codec, blobs, root) && d != root
    requires d !in Refs(ReadManifest(codec, blobs, root).value)
    ensures Complete(codec, blobs - {d}, root)
    ensures ReadManifest(codec, blobs - {d}, root) == ReadManifest(codec, blobs, root)
  {
  }

  /** Removing a root of a closed store leaves it closed exactly when no other root refers to
      the removed manifest as its configuration or component. */
  lemma RemoveKeepsClosedExactly(codec: Codec, disk: Disk, root: Digest)
    requires Closed(codec, disk)
    ensures Closed(codec, DeleteManifest(disk, disk.index, root)) <==>
            forall r :: r in disk.index && r != root ==>
              root !in Refs(ReadManifest(codec, disk.blobs, r).value)
  {
    var after := DeleteManifest(disk, disk.index, root);
    if Closed(codec, after) {
      forall r | r in disk.index && r != root
        ensures root !in Refs(ReadManifest(codec, disk.blobs, r).value)
      {
        assert r in after.index && Complete(codec, after.blobs, r);
        assert ReadManifest(codec, after.blobs, r) == ReadManifest(codec, disk.blobs, r);
        assert root !in after.blobs;
      }
    }
    if forall r :: r in disk.index && r != root ==> root !in Refs(ReadManifest(codec, disk.blobs, r).value) {
      forall r | r in after.index ensures Complete(codec, after.blobs, r) {
        assert r in disk.index;
        DroppingKeepsComplete(codec, disk.blobs, root, r);
      }
    }
  }

  const LEAF := Descriptor("l", 1, Some("license"))

  /** A document with one component, and one that has the first document as its component. */
  const PLAIN := Manifest("c", [LEAF], "")
  const NESTED := Manifest("c", [Descriptor("a", 1, Some("x-a"))], "")

  /** A codec under which [1] is the plain document "a" and [2] the nesting document "b". */
  function NestingCodec(): Codec {
    Codec((b: Bytes) => if b == [1] then "a" else if b == [2] then "b" else if b == [3] then "c" else "l",
          (d: Digest) => true,
          (b: Bytes) => if b == [1] then Some(PLAIN) else if b == [2] then Some(NESTED) else None,
          (b: Bytes) => Some(""),
          (m: Manifest) => m.layers != [],
          (blobs: map<Digest, Bytes>, d: Digest) => true)
  }

  const NESTED_BLOBS: map<Digest, Bytes> := map["a" := [1], "b" := [2], "c" := [3]]

  lemma NestingRefs()
    ensures Refs(PLAIN) == {"c", "l"} && Refs(NESTED) == {"c", "a"}
  {
    assert PLAIN.layers[0].digest == "l" && NESTED.layers[0].digest == "a";
  }

  /** The store of both documents. */
  lemma NestingStore(disk: Disk)
    requires disk == Disk(NESTED_BLOBS["l" := [4]], ["a", "b"], Missing)
    ensures Complete(NestingCodec(), disk.blobs, "a") && Complete(NestingCodec(), disk.blobs, "b")
    ensures ReadManifest(NestingCodec(), disk.blobs, "a") == Some(PLAIN)
    ensures ReadManifest(NestingCodec(), disk.blobs, "b") == Some(NESTED)
    ensures forall d :: d in disk.blobs ==> NestingCodec().hash(disk.blobs[d]) == d
  {
    NestingRefs();
  }

  /** A store of two documents whose second one uses the first as a component: removing the
      first root takes the component away. */
  lemma RemoveCanBreakClosure() returns (codec: Codec, disk: Disk)
    ensures Closed(codec, disk) && "a" in disk.index && disk.blobs.Keys == {"a", "b", "c", "l"}
    ensures forall d :: d in disk.blobs ==> codec.hash(disk.blobs[d]) == d
    ensures forall r :: r in disk.index ==> codec.shape(ReadManifest(codec, disk.blobs, r).value)
    ensures !Closed(codec, DeleteManifest(disk, disk.index, "a"))
  {
    codec, disk := NestingCodec(), Disk(NESTED_BLOBS["l" := [4]], ["a", "b"], Missing);
    NestingRefs();
    NestingStore(disk);
    RemoveKeepsClosedExactly(codec, disk, "a");
    assert "b" in disk.index by { assert disk.index[1] == "b"; }
    assert "a" in disk.index by { assert disk.index[0] == "a"; }
  }
}
