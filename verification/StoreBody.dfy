/** The bodies that run under the catalog lock, one durable effect or one read at a time
    (store/commit.go, store/remove.go, store/maintenance.go). */
module StoreBody {
  import opened Prelude
  import opened StoreDisk
  import opened Metadata

  datatype Origin = Origin(reference: string, source: string)

  datatype Op =
    | Commit(src: Source, origin: Origin, now: int)
    | Remove(root: Digest)
    | Prune(dryRun: bool)
    | Verify(repair: bool)

  datatype Document = Document(root: Digest, record: Record)

  datatype Issue = InvalidDocument(d: Digest) | CatalogMisses(d: Digest) | CatalogExtra(d: Digest)

  datatype Repair = RebuiltMalformed | RebuiltMissing | Added(d: Digest) | Dropped(d: Digest)

  /** The result of Verify. The program lists issues and repairs in an order that partly comes
      from map iteration; a multiset is what that order leaves determined. */
  datatype Verification = Verification(issues: multiset<Issue>, repaired: multiset<Repair>, documents: nat)

  datatype Outcome =
    | Committed(document: Document)
    | Removed
    | Pruned(count: nat, bytes: nat)
    | Verified(verification: Verification)

  /** What Verify has gathered: the roots found valid, the rebuilt catalog, and its report. */
  datatype Progress = Progress(seen: set<Digest>, documents: map<Digest, Record>, report: Verification)

  /** Where a running body stands. */
  datatype Body =
    | PushConfig(op: Op)
    | PushComponent(op: Op, next: nat)
    | PushRoot(op: Op)
    | RecordDocument(op: Op)
    | FindRoot(op: Op)
    | DeleteRoot(op: Op, documents: map<Digest, Record>)
    | ForgetRecord(op: Op, documents: map<Digest, Record>)
    | ReadIndex(op: Op)
    | MarkRoots(op: Op, roots: seq<Digest>, next: nat, reachable: set<Digest>)
    | Measure(op: Op, reachable: set<Digest>)
    | Sweep(op: Op, reachable: set<Digest>, todo: seq<Digest>, count: nat, bytes: nat)
    | LoadForVerify(op: Op)
    | CheckRoots(op: Op, roots: seq<Digest>, next: nat, documents: map<Digest, Record>, progress: Progress)
    | CheckExtras(op: Op, documents: map<Digest, Record>, progress: Progress)
    | SaveRepaired(op: Op, progress: Progress)
    | Done(outcome: Outcome)
    | Failed

  function Begin(op: Op): Body {
    match op
    case Commit(_, _, _) => PushConfig(op)
    case Remove(_) => FindRoot(op)
    case Prune(_) => ReadIndex(op)
    case Verify(_) => LoadForVerify(op)
  }

  /** A body together with the disk and the handle's own copy of the root index. */
  datatype Config = Config(body: Body, disk: Disk, oci: seq<Digest>)

  /** mergeOrigins: appends the values not present yet. */
  function MergeOrigins(base: seq<string>, added: seq<string>): seq<string>
    decreases |added|
  {
    if added == [] then base
    else if added[0] in base then MergeOrigins(base, added[1..])
    else MergeOrigins(base + [added[0]], added[1..])
  }

  /** No origin is lost or repeated, and the order of the earlier ones is kept. */
  lemma {:induction false} OriginsAccumulate(base: seq<string>, added: seq<string>)
    ensures base <= MergeOrigins(base, added)
    ensures forall o :: o in MergeOrigins(base, added) <==> o in base || o in added
    ensures Distinct(base) ==> Distinct(MergeOrigins(base, added))
    decreases |added|
  {
    if added != [] {
      OriginsAccumulate(if added[0] in base then base else base + [added[0]], added[1..]);
      assert forall o :: o in added <==> o == added[0] || o in added[1..];
    }
  }

  /** The catalog record Commit writes, keeping accumulated origins. */
  function CommitRecord(op: Op, documents: map<Digest, Record>): Record
    requires op.Commit?
  {
    var root := op.src.root;
    var existing := if root in documents then documents[root] else NO_RECORD;
    var added := if op.origin.reference != "" then [op.origin.reference] else [];
    Record(op.src.manifest.subject, op.origin.source, MergeOrigins(existing.origins, added), op.now)
  }

  /** What a commit does to the records: its root gets the document's subject, the source and
      time of this commit, and its earlier origins followed by the new reference, if there is
      one and it is new; every other record stays. */
  ghost predicate Recorded(op: Op, before: map<Digest, Record>, after: map<Digest, Record>)
    requires op.Commit?
  {
    var root, reference := op.src.root, op.origin.reference;
    var earlier := if root in before then before[root].origins else [];
    && root in after
    && after[root].subject == op.src.manifest.subject
    && after[root].source == op.origin.source && after[root].updatedAt == op.now
    && earlier <= after[root].origins
    && (forall o :: o in after[root].origins <==> o in earlier || (o == reference && reference != ""))
    && |after[root].origins| <= |earlier| + 1
    && (forall d :: d != root ==> (d in after <==> d in before))
    && (forall d :: d != root && d in before && d in after ==> after[d] == before[d])
  }

  lemma RecordMeaning(op: Op, documents: map<Digest, Record>)
    requires op.Commit?
    ensures Recorded(op, documents, documents[op.src.root := CommitRecord(op, documents)])
  {
    var earlier := if op.src.root in documents then documents[op.src.root].origins else [];
    OriginsAccumulate(earlier, if op.origin.reference != "" then [op.origin.reference] else []);
  }

  /** The same on catalog files: the earlier one is missing or of this version, the later one is
      of this version. */
  ghost predicate CatalogRecords(op: Op, before: CatalogFile, after: CatalogFile)
    requires op.Commit?
  {
    && (before.Missing? || (before.Catalog? && before.version == CATALOG_VERSION))
    && after.Catalog? && after.version == CATALOG_VERSION
    && Recorded(op, if before.Catalog? then before.documents else map[], after.documents)
  }

  /** pushIfMissing of ordinary content: allowed when the digest is present already or the
      content hashes to it. */
  predicate CanPush(codec: Codec, disk: Disk, d: Digest, content: Bytes) {
    d in disk.blobs || codec.hash(content) == d
  }

  function PushIfMissing(disk: Disk, d: Digest, content: Bytes): Disk {
    if d in disk.blobs then disk else PushBlob(disk, d, content)
  }

  /** Content the source streams for component i. */
  function ComponentContent(src: Source, i: nat): Bytes
    requires i < |src.components|
  {
    var kind := src.components[i].kind;
    if kind in src.content then src.content[kind] else []
  }

  /** The blobs one root keeps alive. */
  function Reach(root: Digest, m: Manifest): set<Digest> {
    {root} + Refs(m)
  }

  function SizeOf(blobs: map<Digest, Bytes>, ds: seq<Digest>): nat
    requires forall d :: d in ds ==> d in blobs
  {
    if ds == [] then 0 else |blobs[ds[0]]| + SizeOf(blobs, ds[1..])
  }

  /** The members of ds outside keep, in order. */
  function Outside(ds: seq<Digest>, keep: set<Digest>): (r: seq<Digest>)
    ensures forall d :: d in r <==> d in ds && d !in keep
  {
    if ds == [] then []
    else if ds[0] in keep then Outside(ds[1..], keep)
    else [ds[0]] + Outside(ds[1..], keep)
  }

  /** Whether Verify accepts a root: its manifest opens and artifact verification passes. */
  predicate ValidRoot(codec: Codec, blobs: map<Digest, Bytes>, root: Digest) {
    ReadManifest(codec, blobs, root).Some? && codec.verify(blobs, root)
  }

  function RepairedRecord(m: Manifest, previous: Record): Record {
    previous.(subject := m.subject)
  }

  /** Verify's treatment of one root. */
  function CheckRoot(codec: Codec, blobs: map<Digest, Bytes>, repair: bool,
                     documents: map<Digest, Record>, p: Progress, root: Digest): Progress
  {
    if !ValidRoot(codec, blobs, root) then
      p.(report := p.report.(issues := p.report.issues + multiset{InvalidDocument(root)}))
    else
      var seen := p.seen + {root};
      var report :=
        if root in documents then p.report
        else if repair then p.report.(repaired := p.report.repaired + multiset{Added(root)})
        else p.report.(issues := p.report.issues + multiset{CatalogMisses(root)});
      var previous := if root in documents then documents[root] else NO_RECORD;
      var record := RepairedRecord(ReadManifest(codec, blobs, root).value, previous);
      Progress(seen, if repair then p.documents[root := record] else p.documents, report)
  }

  /** Verify's treatment of one catalog record. */
  function CheckExtra(repair: bool, p: Progress, d: Digest): Progress {
    if d in p.seen then p
    else if repair then p.(report := p.report.(repaired := p.report.repaired + multiset{Dropped(d)}))
    else p.(report := p.report.(issues := p.report.issues + multiset{CatalogExtra(d)}))
  }

  /** The catalog Verify starts from, or None when it gives up. */
  function CatalogForVerify(file: CatalogFile, repair: bool): Option<(map<Digest, Record>, multiset<Repair>)> {
    match LoadCatalog(file)
    case Ok(documents) =>
      Some((documents, if repair && file.Missing? then multiset{RebuiltMissing} else multiset{}))
    case Err(e) =>
      if repair && e == InvalidCatalog then Some((map[], multiset{RebuiltMalformed})) else None
  }

  function AfterExtra(c: Config, d: Digest): Config
    requires c.body.CheckExtras? && c.body.op.Verify?
  {
    c.(body := CheckExtras(c.body.op, c.body.documents - {d}, CheckExtra(c.body.op.repair, c.body.progress, d)))
  }

  /** Commit: configuration, components in the source's order, manifest and index, catalog. */
  ghost predicate CommitStep(codec: Codec, c: Config, c': Config) {
    match c.body
    case PushConfig(op) =>
      && op.Commit?
      && CanPush(codec, c.disk, op.src.manifest.config, op.src.configBytes)
      && c' == c.(body := PushComponent(op, 0),
                  disk := PushIfMissing(c.disk, op.src.manifest.config, op.src.configBytes))
    case PushComponent(op, next) =>
      && op.Commit?
      && if next < |op.src.components| then
           && CanPush(codec, c.disk, op.src.components[next].descriptor.digest, ComponentContent(op.src, next))
           && c' == c.(body := PushComponent(op, next + 1),
                       disk := PushIfMissing(c.disk, op.src.components[next].descriptor.digest,
                                             ComponentContent(op.src, next)))
         else c' == c.(body := PushRoot(op))
    case PushRoot(op) =>
      && op.Commit?
      && CanPush(codec, c.disk, op.src.root, op.src.rootBytes)
      && c' == if op.src.root in c.disk.blobs then c.(body := RecordDocument(op))
               else Config(RecordDocument(op),
                           PushManifest(c.disk, c.oci, op.src.root, op.src.rootBytes),
                           With(c.oci, op.src.root))
    case RecordDocument(op) =>
      && op.Commit? && LoadCatalog(c.disk.catalog).Ok?
      && var documents := LoadCatalog(c.disk.catalog).value;
         var record := CommitRecord(op, documents);
         c' == c.(body := Done(Committed(Document(op.src.root, record))),
                  disk := SaveCatalog(c.disk, documents[op.src.root := record]))
    case _ => false
  }

  /** Remove: the root must be indexed and the catalog readable before anything changes. */
  ghost predicate RemoveStep(c: Config, c': Config) {
    match c.body
    case FindRoot(op) =>
      && op.Remove? && op.root in c.disk.index && LoadCatalog(c.disk.catalog).Ok?
      && c' == c.(body := DeleteRoot(op, LoadCatalog(c.disk.catalog).value))
    case DeleteRoot(op, documents) =>
      && op.Remove?
      && c' == Config(ForgetRecord(op, documents), DeleteManifest(c.disk, c.oci, op.root),
                      Without(c.oci, op.root))
    case ForgetRecord(op, documents) =>
      && op.Remove?
      && c' == c.(body := Done(Removed),
                  disk := if op.root in documents then SaveCatalog(c.disk, documents - {op.root}) else c.disk)
    case _ => false
  }

  /** Prune: mark root by root, measure, then delete blob by blob. */
  ghost predicate PruneStep(codec: Codec, c: Config, c': Config) {
    match c.body
    case ReadIndex(op) =>
      && op.Prune?
      && c' == c.(body := MarkRoots(op, c.disk.index, 0, {}))
    case MarkRoots(op, roots, next, reachable) =>
      && op.Prune?
      && if next < |roots| then
           var m := ReadManifest(codec, c.disk.blobs, roots[next]);
           && m.Some?
           && c' == c.(body := MarkRoots(op, roots, next + 1, reachable + Reach(roots[next], m.value)))
         else c' == c.(body := Measure(op, reachable))
    case Measure(op, reachable) =>
      && op.Prune?
      && var files := Listing(c.disk.blobs.Keys);
         var garbage := Outside(files, reachable);
         && (forall d :: d in garbage ==> d in c.disk.blobs)
         && var count, bytes := |garbage|, SizeOf(c.disk.blobs, garbage);
            c' == c.(body := if op.dryRun then Done(Pruned(count, bytes))
                             else Sweep(op, reachable, files, count, bytes))
    case Sweep(op, reachable, todo, count, bytes) =>
      && op.Prune?
      && c' == if todo == [] then c.(body := Done(Pruned(count, bytes)))
               else c.(body := Sweep(op, reachable, todo[1..], count, bytes),
                       disk := if todo[0] in reachable then c.disk
                               else c.disk.(blobs := c.disk.blobs - {todo[0]}))
    case _ => false
  }

  /** Verify: check root by root, then the catalog's records in any order, then save. */
  ghost predicate VerifyStep(codec: Codec, c: Config, c': Config) {
    match c.body
    case LoadForVerify(op) =>
      && op.Verify? && CatalogForVerify(c.disk.catalog, op.repair).Some?
      && var (documents, notes) := CatalogForVerify(c.disk.catalog, op.repair).value;
         c' == c.(body := CheckRoots(op, c.disk.index, 0, documents,
                    Progress({}, map[], Verification(multiset{}, notes, |c.disk.index|))))
    case CheckRoots(op, roots, next, documents, progress) =>
      && op.Verify?
      && if next < |roots| then
           c' == c.(body := CheckRoots(op, roots, next + 1, documents,
                      CheckRoot(codec, c.disk.blobs, op.repair, documents, progress, roots[next])))
         else c' == c.(body := CheckExtras(op, documents, progress))
    case CheckExtras(op, documents, progress) =>
      && op.Verify?
      && if documents == map[] then c' == c.(body := SaveRepaired(op, progress))
         else exists d :: d in documents && c' == AfterExtra(c, d)
    case SaveRepaired(op, progress) =>
      && op.Verify?
      && c' == c.(body := Done(Verified(progress.report)),
                  disk := if op.repair then SaveCatalog(c.disk, progress.documents) else c.disk)
    case _ => false
  }

  /** One step of a body that has not ended. Any step may fail instead, leaving the disk as the
      previous steps left it; an interruption is a run that simply stops. */
  ghost predicate Step(codec: Codec, c: Config, c': Config) {
    || (!c.body.Done? && !c.body.Failed? && c' == c.(body := Failed))
    || CommitStep(codec, c, c')
    || RemoveStep(c, c')
    || PruneStep(codec, c, c')
    || VerifyStep(codec, c, c')
  }

  /** Every blob a root needs is marked. */
  ghost predicate Marked(codec: Codec, disk: Disk, reachable: set<Digest>) {
    forall r :: r in disk.index ==>
      ReadManifest(codec, disk.blobs, r).Some?
      && Reach(r, ReadManifest(codec, disk.blobs, r).value) <= reachable
  }

  /** A commit passed ValidateMetadata, and its root is no other document's content. */
  ghost predicate Admissible(codec: Codec, isRoot: Digest -> bool, op: Op) {
    op.Commit? ==>
      && MetadataValid(codec, op.src) && isRoot(op.src.root)
      && forall d :: d in Refs(op.src.manifest) ==> !isRoot(d)
  }

  /** What a body relies on and keeps, besides a closed store: how much of the graph of a commit
      is already present, and that everything still needed is marked. */
  ghost predicate BodyInv(codec: Codec, isRoot: Digest -> bool, c: Config) {
    c.oci == c.disk.index &&
    match c.body
    case PushConfig(op) => op.Commit? && Admissible(codec, isRoot, op)
    case PushComponent(op, next) =>
      && op.Commit? && Admissible(codec, isRoot, op) && next <= |op.src.components|
      && op.src.manifest.config in c.disk.blobs
      && ComponentDigests(op.src.components, next) <= c.disk.blobs.Keys
    case PushRoot(op) =>
      && op.Commit? && Admissible(codec, isRoot, op) && Refs(op.src.manifest) <= c.disk.blobs.Keys
    case RecordDocument(op) => op.Commit?
    case DeleteRoot(op, documents) => op.Remove? && op.root in c.disk.index
    case MarkRoots(op, roots, next, reachable) =>
      && next <= |roots| && roots == c.disk.index
      && forall i :: 0 <= i < next ==>
           ReadManifest(codec, c.disk.blobs, roots[i]).Some?
           && Reach(roots[i], ReadManifest(codec, c.disk.blobs, roots[i]).value) <= reachable
    case Measure(op, reachable) => Marked(codec, c.disk, reachable)
    case Sweep(op, reachable, todo, count, bytes) => Marked(codec, c.disk, reachable)
    case CheckRoots(op, roots, next, documents, progress) => next <= |roots|
    case _ => true
  }

  /** Every blob is stored under the digest of its content. */
  ghost predicate Addressed(codec: Codec, disk: Disk) {
    forall d :: d in disk.blobs ==> codec.hash(disk.blobs[d]) == d
  }

  /** The safety of the disk: every indexed root is complete, roots and contents are kept
      apart, and content is found under its own digest. */
  ghost predicate Sound(codec: Codec, isRoot: Digest -> bool, disk: Disk) {
    Closed(codec, disk) && Apart(codec, isRoot, disk) && Addressed(codec, disk)
  }
}
