/** What the store's operations achieve: interruption safety, what a commit indexes, what a
    prune removes, and what a repair restores. */
module StoreTheory {
  import opened Prelude
  import opened StoreDisk
  import opened Metadata
  import opened StoreBody
  import opened StoreSafety
  import opened LocalStore

  /** However far an operation gets before it ends, fails or is cut off, the disk is sound. */
  lemma {:induction false} InterruptedAnywhere(codec: Codec, isRoot: Digest -> bool, op: Op, before: Disk,
                                               trace: seq<Config>, i: nat)
    requires IsTrace(codec, trace) && trace[0] == Config(Begin(op), before, before.index)
    requires Sound(codec, isRoot, before) && Admissible(codec, isRoot, op) && i < |trace|
    ensures Sound(codec, isRoot, trace[i].disk) && BodyInv(codec, isRoot, trace[i])
  {
    if i > 0 {
      InterruptedAnywhere(codec, isRoot, op, before, trace, i - 1);
      assert StepAt(codec, trace, i - 1);
      StepKeeps(codec, isRoot, trace[i - 1], trace[i]);
    }
  }

  lemma {:induction false} ComponentKeys(src: Source, disk: Disk, n: nat)
    requires n <= |src.components|
    ensures PushedComponents(src, disk, n).blobs.Keys == disk.blobs.Keys + ComponentDigests(src.components, n)
  {
    if n > 0 {
      ComponentKeys(src, disk, n - 1);
      assert ComponentDigests(src.components, n) ==
             ComponentDigests(src.components, n - 1) + {src.components[n - 1].descriptor.digest};
    } else {
      assert ComponentDigests(src.components, 0) == {};
    }
  }

  /** A completed commit has stored the configuration and every component its manifest names. */
  lemma CommitStoresWholeGraph(codec: Codec, op: Op, disk: Disk)
    requires op.Commit? && MetadataValid(codec, op.src) && LoadCatalog(disk.catalog).Ok?
    ensures PushedGraph(op, disk).blobs.Keys == disk.blobs.Keys + Refs(op.src.manifest)
    ensures CommittedDisk(op, disk).blobs.Keys == disk.blobs.Keys + Reach(op.src.root, op.src.manifest)
  {
    var first := PushIfMissing(disk, op.src.manifest.config, op.src.configBytes);
    ComponentKeys(op.src, first, |op.src.components|);
    ValidSourceCoversManifest(codec, op.src);
    assert first.blobs.Keys == disk.blobs.Keys + {op.src.manifest.config};
  }

  /** Where content that is new in the store comes from: the configuration or a component of the
      document. */
  ghost predicate FromSource(src: Source, d: Digest, content: Bytes) {
    || (d == src.manifest.config && content == src.configBytes)
    || exists i :: && 0 <= i < |src.components| && d == src.components[i].descriptor.digest
                   && var kind := src.components[i].kind;
                      content == if kind in src.content then src.content[kind] else []
  }

  lemma {:induction false} ComponentsStored(src: Source, disk: Disk, n: nat, d: Digest)
    requires n <= |src.components|
    ensures var after := PushedComponents(src, disk, n).blobs;
            && (d in disk.blobs ==> d in after && after[d] == disk.blobs[d])
            && (d in after && d !in disk.blobs ==> FromSource(src, d, after[d]))
  {
    if n > 0 {
      ComponentsStored(src, disk, n - 1, d);
      var before := PushedComponents(src, disk, n - 1).blobs;
      var digest, kind := src.components[n - 1].descriptor.digest, src.components[n - 1].kind;
      if d == digest && d !in before {
        assert PushedComponents(src, disk, n).blobs[d] == if kind in src.content then src.content[kind] else [];
      }
    }
  }

  /** A completed commit leaves stored content alone, and what it adds is the document's own. */
  lemma CommitStoresContent(op: Op, disk: Disk, d: Digest)
    requires op.Commit? && LoadCatalog(disk.catalog).Ok?
    ensures var after := CommittedDisk(op, disk).blobs;
            && (d in disk.blobs ==> d in after && after[d] == disk.blobs[d])
            && (d in after && d !in disk.blobs ==>
                  FromSource(op.src, d, after[d]) || (d == op.src.root && after[d] == op.src.rootBytes))
  {
    var first := PushIfMissing(disk, op.src.manifest.config, op.src.configBytes);
    ComponentsStored(op.src, first, |op.src.components|, d);
  }

  /** A completed commit records its document beside every earlier record. */
  lemma CommitRecordsDocument(op: Op, disk: Disk)
    requires op.Commit? && LoadCatalog(disk.catalog).Ok?
    ensures CatalogRecords(op, disk.catalog, CommittedDisk(op, disk).catalog)
  {
    RecordMeaning(op, LoadCatalog(disk.catalog).value);
  }

  /** An instance: committing the same document from a second registry keeps the first origin. */
  lemma SecondOriginKept(src: Source, source: string, now: int, blobs: map<Digest, Bytes>, earlier: Record)
    requires earlier.origins == ["reg/a:1"]
    ensures var disk := Disk(blobs, [src.root], Catalog(1, map[src.root := earlier]));
            var after := CommittedDisk(Commit(src, Origin("reg/b:1", source), now), disk).catalog;
            after.Catalog? && src.root in after.documents
            && after.documents[src.root].origins == ["reg/a:1", "reg/b:1"]
  {
    var disk := Disk(blobs, [src.root], Catalog(1, map[src.root := earlier]));
    var op := Commit(src, Origin("reg/b:1", source), now);
    CommitRecordsDocument(op, disk);
    var origins := CommittedDisk(op, disk).catalog.documents[src.root].origins;
    assert "reg/a:1"[4] != "reg/b:1"[4];
    assert "reg/b:1" in origins && origins[0] == "reg/a:1";
  }

  /** A completed commit lists its root in the index exactly when the root was listed before,
      or its digest named neither a stored blob nor a blob of the document itself: existing
      content is never pushed again, and only pushing a manifest indexes it. */
  lemma CommitIndexesExactly(codec: Codec, op: Op, disk: Disk)
    requires op.Commit? && MetadataValid(codec, op.src) && LoadCatalog(disk.catalog).Ok?
    ensures op.src.root in CommittedDisk(op, disk).index <==>
            || op.src.root in disk.index
            || op.src.root !in disk.blobs.Keys + Refs(op.src.manifest)
    ensures forall r :: r != op.src.root ==> (r in CommittedDisk(op, disk).index <==> r in disk.index)
  {
    CommitStoresWholeGraph(codec, op, disk);
    PushedKeepsRest(op, disk);
  }

  /** Every push of a commit finds its blob or may store it. */
  ghost predicate Pushable(codec: Codec, op: Op, disk: Disk)
    requires op.Commit?
  {
    var (src, first) := (op.src, PushIfMissing(disk, op.src.manifest.config, op.src.configBytes));
    && CanPush(codec, disk, src.manifest.config, src.configBytes)
    && (forall i {:trigger ComponentContent(src, i)} :: 0 <= i < |src.components| ==>
          CanPush(codec, PushedComponents(src, first, i), src.components[i].descriptor.digest,
                  ComponentContent(src, i)))
    && CanPush(codec, PushedGraph(op, disk), src.root, src.rootBytes)
  }

  /** Where a commit stands before component n. */
  function BeforeComponent(op: Op, disk: Disk, n: nat): Config
    requires op.Commit? && n <= |op.src.components|
  {
    var first := PushIfMissing(disk, op.src.manifest.config, op.src.configBytes);
    Config(PushComponent(op, n), PushedComponents(op.src, first, n), disk.index)
  }

  lemma ComponentStep(codec: Codec, op: Op, disk: Disk, n: nat)
    requires op.Commit? && Pushable(codec, op, disk) && n < |op.src.components|
    ensures CommitStep(codec, BeforeComponent(op, disk, n), BeforeComponent(op, disk, n + 1))
  {
    var first := PushIfMissing(disk, op.src.manifest.config, op.src.configBytes);
    assert CanPush(codec, PushedComponents(op.src, first, n), op.src.components[n].descriptor.digest,
                   ComponentContent(op.src, n));
  }

  lemma {:induction false} CommitExtends(codec: Codec, trace: seq<Config>, c: Config)
    requires IsTrace(codec, trace) && CommitStep(codec, Last(trace), c)
    ensures IsTrace(codec, trace + [c]) && Last(trace + [c]) == c && (trace + [c])[0] == trace[0]
  {
    Extend(codec, trace, c);
  }

  lemma FirstStep(codec: Codec, op: Op, disk: Disk)
    requires op.Commit? && Pushable(codec, op, disk)
    ensures CommitStep(codec, Config(Begin(op), disk, disk.index), BeforeComponent(op, disk, 0))
  {
  }

  /** trace runs from the start of op up to component n. */
  ghost predicate TracesTo(codec: Codec, op: Op, disk: Disk, n: nat, trace: seq<Config>)
    requires op.Commit? && n <= |op.src.components|
  {
    && IsTrace(codec, trace) && trace[0] == Config(Begin(op), disk, disk.index)
    && Last(trace) == BeforeComponent(op, disk, n)
  }

  lemma {:induction false} FirstExtends(codec: Codec, op: Op, disk: Disk) returns (trace: seq<Config>)
    requires op.Commit? && Pushable(codec, op, disk)
    ensures TracesTo(codec, op, disk, 0, trace)
  {
    trace := [Config(Begin(op), disk, disk.index)];
    FirstStep(codec, op, disk);
    CommitExtends(codec, trace, BeforeComponent(op, disk, 0));
    trace := trace + [BeforeComponent(op, disk, 0)];
  }

  lemma {:induction false} ComponentExtends(codec: Codec, op: Op, disk: Disk, n: nat, before: seq<Config>)
    returns (trace: seq<Config>)
    requires op.Commit? && Pushable(codec, op, disk) && n < |op.src.components|
    requires TracesTo(codec, op, disk, n, before)
    ensures TracesTo(codec, op, disk, n + 1, trace)
  {
    ComponentStep(codec, op, disk, n);
    CommitExtends(codec, before, BeforeComponent(op, disk, n + 1));
    trace := before + [BeforeComponent(op, disk, n + 1)];
  }

  lemma {:induction false} ComponentsTrace(codec: Codec, op: Op, disk: Disk, n: nat) returns (trace: seq<Config>)
    requires op.Commit? && Pushable(codec, op, disk) && n <= |op.src.components|
    ensures TracesTo(codec, op, disk, n, trace)
    decreases n
  {
    if n == 0 {
      trace := FirstExtends(codec, op, disk);
    } else {
      trace := ComponentsTrace(codec, op, disk, n - 1);
      trace := ComponentExtends(codec, op, disk, n - 1, trace);
    }
  }

  /** A commit whose pushes are possible has a run that succeeds. */
  lemma CommitTrace(codec: Codec, op: Op, disk: Disk) returns (trace: seq<Config>, document: Document)
    requires op.Commit? && Pushable(codec, op, disk) && LoadCatalog(disk.catalog).Ok?
    ensures Runs(codec, op, disk, trace, Done(Committed(document)), CommittedDisk(op, disk))
  {
    var graph, documents := PushedGraph(op, disk), LoadCatalog(disk.catalog).value;
    PushedKeepsRest(op, disk);
    trace := ComponentsTrace(codec, op, disk, |op.src.components|);
    var ready := Config(PushRoot(op), graph, disk.index);
    Extend(codec, trace, ready);
    trace := trace + [ready];
    var indexed := if op.src.root in graph.blobs then Config(StoreBody.RecordDocument(op), graph, disk.index)
                   else Config(StoreBody.RecordDocument(op),
                               PushManifest(graph, disk.index, op.src.root, op.src.rootBytes),
                               With(disk.index, op.src.root));
    Extend(codec, trace, indexed);
    trace := trace + [indexed];
    document := Document(op.src.root, CommitRecord(op, documents));
    var end := Config(Done(Committed(document)), CommittedDisk(op, disk), indexed.oci);
    Extend(codec, trace, end);
    trace := trace + [end];
  }

  /** The commit of the plain document into the store of the nesting one. */
  lemma NestingCommit() returns (disk: Disk, op: Op)
    ensures disk == Disk(NESTED_BLOBS, ["b"], Missing) && op.Commit? && op.src.root == "a"
    ensures Sound(NestingCodec(), d => d == "b", disk) && MetadataValid(NestingCodec(), op.src)
    ensures op.src.manifest == PLAIN && op.src.components == [Component("license", LEAF)]
    ensures op.src.content == map["license" := [4]] && op.src.rootBytes == [1] && op.src.configBytes == [3]
  {
    var codec := NestingCodec();
    disk := Disk(NESTED_BLOBS, ["b"], Missing);
    NestingRefs();
    assert Complete(codec, disk.blobs, "b");
    op := Commit(Source("a", [1], [3], PLAIN, "", [Component("license", LEAF)], map["license" := [4]]),
                 Origin("", ""), 0);
    assert LEAF in PLAIN.layers by { assert PLAIN.layers[0] == LEAF; }
    assert IsLayer(op.src.manifest.layers, op.src.components[0]);
  }

  lemma NestingPushable(disk: Disk, op: Op)
    requires disk == Disk(NESTED_BLOBS, ["b"], Missing) && op.Commit?
    requires op.src.root == "a" && op.src.manifest == PLAIN && op.src.components == [Component("license", LEAF)]
    requires op.src.content == map["license" := [4]] && op.src.rootBytes == [1] && op.src.configBytes == [3]
    ensures Pushable(NestingCodec(), op, disk)
  {
    assert PushIfMissing(disk, "c", [3]) == disk;
  }

  /** An instance: in a sound store whose one root has the document as its component, a commit
      of that document runs to success, enters it in the catalog, and leaves it out of the
      index. */
  lemma CommitCanMissIndex()
    returns (codec: Codec, isRoot: Digest -> bool, disk: Disk, op: Op, trace: seq<Config>, document: Document)
    ensures Sound(codec, isRoot, disk) && op.Commit? && MetadataValid(codec, op.src)
    ensures LoadCatalog(disk.catalog).Ok?
    ensures Runs(codec, op, disk, trace, Done(Committed(document)), CommittedDisk(op, disk))
    ensures var after := CommittedDisk(op, disk);
            && op.src.root !in after.index && LoadCatalog(after.catalog).Ok?
            && op.src.root in LoadCatalog(after.catalog).value
  {
    codec, isRoot := NestingCodec(), d => d == "b";
    disk, op := NestingCommit();
    NestingRefs();
    CommitIndexesExactly(codec, op, disk);
    NestingPushable(disk, op);
    trace, document := CommitTrace(codec, op, disk);
  }

  /** Committing twice: the second commit of a root that the first one indexed adds no content
      and no root. */
  lemma RecommitAddsNothing(codec: Codec, op: Op, again: Op, disk: Disk)
    requires op.Commit? && again.Commit? && again.src == op.src
    requires MetadataValid(codec, op.src) && LoadCatalog(disk.catalog).Ok?
    ensures var after := CommittedDisk(op, disk);
            LoadCatalog(after.catalog).Ok?
            && CommittedDisk(again, after).blobs.Keys == after.blobs.Keys
            && forall r :: r in CommittedDisk(again, after).index <==> r in after.index
  {
    var after := CommittedDisk(op, disk);
    CommitStoresWholeGraph(codec, op, disk);
    CommitStoresWholeGraph(codec, again, after);
    CommitIndexesExactly(codec, again, after);
  }

  /** mergeOrigins, with its set of values already seen. */
  method MergeOriginLists(base: seq<string>, added: seq<string>) returns (merged: seq<string>)
    ensures merged == MergeOrigins(base, added)
  {
    var seen := set o | o in base;
    merged := base;
    var i := 0;
    while i < |added|
      invariant i <= |added| && seen == set o | o in merged
      invariant MergeOrigins(base, added) == MergeOrigins(merged, added[i..])
    {
      assert added[i..][1..] == added[i + 1..];
      if added[i] !in seen {
        merged := merged + [added[i]];
        seen := seen + {added[i]};
      }
      i := i + 1;
    }
  }

  /** A blob is reachable exactly when it is an indexed root or named by one. */
  lemma {:induction false} ReachFirstMeaning(codec: Codec, disk: Disk, n: nat, d: Digest)
    requires n <= |disk.index|
    ensures d in ReachFirst(codec, disk.blobs, disk.index, n) <==>
            exists i :: 0 <= i < n && ReadManifest(codec, disk.blobs, disk.index[i]).Some?
                        && d in Reach(disk.index[i], ReadManifest(codec, disk.blobs, disk.index[i]).value)
  {
    if n > 0 { ReachFirstMeaning(codec, disk, n - 1, d); }
  }

  /** The digests of closed roots are all present. */
  lemma ReachablePresent(codec: Codec, disk: Disk)
    requires Closed(codec, disk)
    ensures ReachAll(codec, disk) <= disk.blobs.Keys
  {
    forall d | d in ReachAll(codec, disk) ensures d in disk.blobs.Keys {
      ReachFirstMeaning(codec, disk, |disk.index|, d);
      var i :| 0 <= i < |disk.index| && ReadManifest(codec, disk.blobs, disk.index[i]).Some?
               && d in Reach(disk.index[i], ReadManifest(codec, disk.blobs, disk.index[i]).value);
      assert Complete(codec, disk.blobs, disk.index[i]);
    }
  }

  function PrunedDisk(codec: Codec, disk: Disk): Disk {
    disk.(blobs := Kept(disk.blobs, ReachAll(codec, disk)))
  }

  lemma {:induction false} PruneKeepsReach(codec: Codec, disk: Disk, n: nat)
    requires AllReadable(codec, disk) && n <= |disk.index|
    ensures ReachFirst(codec, PrunedDisk(codec, disk).blobs, disk.index, n)
            == ReachFirst(codec, disk.blobs, disk.index, n)
  {
    if n > 0 {
      PruneKeepsReach(codec, disk, n - 1);
      var r := disk.index[n - 1];
      ReachFirstMeaning(codec, disk, |disk.index|, r);
      assert ReadManifest(codec, disk.blobs, r).Some? && r in Reach(r, ReadManifest(codec, disk.blobs, r).value);
    }
  }

  /** A completed prune leaves exactly the blobs reachable from the index. */
  lemma PruneLeavesReachable(codec: Codec, disk: Disk)
    ensures PrunedDisk(codec, disk).blobs.Keys == ReachAll(codec, disk) * disk.blobs.Keys
    ensures Closed(codec, disk) ==> PrunedDisk(codec, disk).blobs.Keys == ReachAll(codec, disk)
  {
    if Closed(codec, disk) { ReachablePresent(codec, disk); }
  }

  /** Root r needs blob d: r is an intact manifest within the size limit, and d is r itself, its
      configuration or one of its components. */
  ghost predicate Needs(codec: Codec, blobs: map<Digest, Bytes>, r: Digest, d: Digest) {
    && r in blobs && |blobs[r]| <= MAX_METADATA_SIZE && codec.hash(blobs[r]) == r
    && codec.manifest(blobs[r]).Some?
    && var m := codec.manifest(blobs[r]).value;
       d == r || d == m.config || exists i :: 0 <= i < |m.layers| && m.layers[i].digest == d
  }

  /** A root is complete exactly when it needs something, and all it needs is there. */
  lemma CompleteExactly(codec: Codec, blobs: map<Digest, Bytes>, r: Digest)
    ensures Complete(codec, blobs, r) <==>
            Needs(codec, blobs, r, r) && forall d :: Needs(codec, blobs, r, d) ==> d in blobs
  {
    if Needs(codec, blobs, r, r) {
      var m := codec.manifest(blobs[r]).value;
      forall d ensures d in Refs(m) ==> Needs(codec, blobs, r, d) {}
      assert Needs(codec, blobs, r, m.config);
      if forall d :: Needs(codec, blobs, r, d) ==> d in blobs {
        forall d | d in Refs(m) ensures d in blobs { assert Needs(codec, blobs, r, d); }
      }
    }
  }

  /** A completed prune keeps exactly the blobs that some indexed root needs, unchanged. */
  lemma PruneKeepsNeeded(codec: Codec, disk: Disk, d: Digest)
    ensures d in PrunedDisk(codec, disk).blobs <==>
            d in disk.blobs && exists r :: r in disk.index && Needs(codec, disk.blobs, r, d)
    ensures d in PrunedDisk(codec, disk).blobs ==> PrunedDisk(codec, disk).blobs[d] == disk.blobs[d]
  {
    ReachFirstMeaning(codec, disk, |disk.index|, d);
    if r :| r in disk.index && Needs(codec, disk.blobs, r, d) {
      var i :| 0 <= i < |disk.index| && disk.index[i] == r;
    }
    if d in ReachAll(codec, disk) {
      var i :| 0 <= i < |disk.index| && ReadManifest(codec, disk.blobs, disk.index[i]).Some?
               && d in Reach(disk.index[i], ReadManifest(codec, disk.blobs, disk.index[i]).value);
      assert Needs(codec, disk.blobs, disk.index[i], d);
    }
  }

  /** The bytes of all blobs, counted in any order. */
  ghost function TotalBytes(blobs: map<Digest, Bytes>): nat
    decreases |blobs|
  {
    if blobs == map[] then 0
    else
      var d :| d in blobs;
      |blobs[d]| + TotalBytes(blobs - {d})
  }

  lemma {:induction false} TotalWithout(blobs: map<Digest, Bytes>, d: Digest)
    requires d in blobs
    ensures TotalBytes(blobs) == |blobs[d]| + TotalBytes(blobs - {d})
    decreases |blobs|
  {
    var first :| first in blobs && TotalBytes(blobs) == |blobs[first]| + TotalBytes(blobs - {first});
    if first != d {
      TotalWithout(blobs - {first}, d);
      TotalWithout(blobs - {d}, first);
      assert blobs - {first} - {d} == blobs - {d} - {first};
    }
  }

  lemma {:induction false} SizeOfPart(blobs: map<Digest, Bytes>, ds: seq<Digest>)
    requires Distinct(ds) && forall d :: d in ds ==> d in blobs
    ensures SizeOf(blobs, ds) + TotalBytes(blobs - Elements(ds)) == TotalBytes(blobs)
    decreases |ds|
  {
    if ds == [] {
      assert blobs - Elements(ds) == blobs;
    } else {
      var rest := blobs - Elements(ds[1..]);
      assert ds[0] !in ds[1..];
      SizeOfPart(blobs, ds[1..]);
      TotalWithout(rest, ds[0]);
      assert ds == [ds[0]] + ds[1..];
      assert rest - {ds[0]} == blobs - Elements(ds);
    }
  }

  lemma SplitCount<T>(whole: set<T>, part: set<T>)
    requires part <= whole
    ensures |whole - part| == |whole| - |part|
  {
    assert whole == part + (whole - part);
  }

  lemma GarbageElements(codec: Codec, disk: Disk)
    ensures Elements(Garbage(codec, disk)) == disk.blobs.Keys - PrunedDisk(codec, disk).blobs.Keys
  {
    forall d ensures d in Garbage(codec, disk) <==> d in disk.blobs.Keys - PrunedDisk(codec, disk).blobs.Keys {}
  }

  lemma {:induction false} OutsideAscending(ds: seq<Digest>, keep: set<Digest>)
    requires StrictlyAscending(ds)
    ensures StrictlyAscending(Outside(ds, keep))
  {
    if ds != [] {
      OutsideAscending(ds[1..], keep);
      var rest := Outside(ds[1..], keep);
      forall j | 0 <= j < |rest| ensures Lt(ds[0], rest[j]) {
        assert rest[j] in ds[1..];
        var i :| 0 <= i < |ds[1..]| && ds[1..][i] == rest[j];
        assert ds[i + 1] == rest[j];
      }
    }
  }

  /** What a prune reports, dry or not, is the list of what it deletes. */
  lemma PruneReportsDeletions(codec: Codec, disk: Disk)
    ensures Lists(Garbage(codec, disk), disk.blobs.Keys - PrunedDisk(codec, disk).blobs.Keys)
    ensures |Garbage(codec, disk)| == |disk.blobs| - |PrunedDisk(codec, disk).blobs|
  {
    var garbage, kept := Garbage(codec, disk), PrunedDisk(codec, disk).blobs;
    var gone := disk.blobs.Keys - kept.Keys;
    ListingLists(disk.blobs.Keys);
    OutsideAscending(Listing(disk.blobs.Keys), ReachAll(codec, disk));
    GarbageElements(codec, disk);
    StrictIsDistinct(garbage);
    DistinctCount(garbage);
    SplitCount(disk.blobs.Keys, kept.Keys);
    assert |disk.blobs| == |disk.blobs.Keys| && |kept| == |kept.Keys|;
  }

  /** The bytes a prune reports are those it takes away from the store. */
  lemma PruneFreesBytes(codec: Codec, disk: Disk)
    ensures SizeOf(disk.blobs, Garbage(codec, disk)) + TotalBytes(PrunedDisk(codec, disk).blobs)
            == TotalBytes(disk.blobs)
  {
    var garbage := Garbage(codec, disk);
    PruneReportsDeletions(codec, disk);
    StrictIsDistinct(garbage);
    SizeOfPart(disk.blobs, garbage);
    GarbageElements(codec, disk);
    assert disk.blobs - Elements(garbage) == PrunedDisk(codec, disk).blobs;
  }

  lemma {:induction false} OutsideNothing(ds: seq<Digest>, keep: set<Digest>)
    requires Elements(ds) <= keep
    ensures Outside(ds, keep) == []
  {
    if ds != [] {
      assert ds[0] in Elements(ds);
      forall d | d in Elements(ds[1..]) ensures d in keep { assert d in Elements(ds); }
      OutsideNothing(ds[1..], keep);
    }
  }

  /** Pruning again finds nothing to delete. */
  lemma PruneAgainFindsNothing(codec: Codec, disk: Disk)
    requires AllReadable(codec, disk)
    ensures Garbage(codec, PrunedDisk(codec, disk)) == []
  {
    PruneKeepsReach(codec, disk, |disk.index|);
    var after := PrunedDisk(codec, disk);
    assert ReachAll(codec, after) == ReachAll(codec, disk);
    assert after.blobs.Keys <= ReachAll(codec, after);
    ListingLists(after.blobs.Keys);
    OutsideNothing(Listing(after.blobs.Keys), ReachAll(codec, after));
  }

  /** The valid roots among the first n of the index. */
  function ValidRoots(codec: Codec, disk: Disk, n: nat): set<Digest>
    requires n <= |disk.index|
  {
    set i | 0 <= i < n && ValidRoot(codec, disk.blobs, disk.index[i]) :: disk.index[i]
  }

  lemma ValidRootsNext(codec: Codec, disk: Disk, n: nat)
    requires n < |disk.index|
    ensures ValidRoots(codec, disk, n + 1) ==
            ValidRoots(codec, disk, n)
            + (if ValidRoot(codec, disk.blobs, disk.index[n]) then {disk.index[n]} else {})
  {
  }

  function Previous(documents: map<Digest, Record>, d: Digest): Record {
    if d in documents then documents[d] else NO_RECORD
  }

  /** The catalog a repair writes: one record per valid root, with the subject of its manifest
      and every other observation kept. */
  function Rebuilt(codec: Codec, disk: Disk, documents: map<Digest, Record>, n: nat): map<Digest, Record>
    requires n <= |disk.index|
  {
    map d | d in ValidRoots(codec, disk, n) ::
      Previous(documents, d).(subject := ReadManifest(codec, disk.blobs, d).value.subject)
  }

  lemma {:induction false} CheckedSeen(codec: Codec, disk: Disk, repair: bool, documents: map<Digest, Record>,
                                       start: Progress, n: nat)
    requires n <= |disk.index| && start.seen == {}
    ensures CheckFirst(codec, disk, repair, documents, start, n).seen == ValidRoots(codec, disk, n)
  {
    if n > 0 {
      CheckedSeen(codec, disk, repair, documents, start, n - 1);
      ValidRootsNext(codec, disk, n - 1);
    }
  }

  lemma CheckRootDocuments(codec: Codec, blobs: map<Digest, Bytes>, documents: map<Digest, Record>,
                           p: Progress, root: Digest)
    ensures CheckRoot(codec, blobs, true, documents, p, root).documents ==
            if ValidRoot(codec, blobs, root)
            then p.documents[root := RepairedRecord(ReadManifest(codec, blobs, root).value, Previous(documents, root))]
            else p.documents
  {
  }

  lemma RebuiltNext(codec: Codec, disk: Disk, documents: map<Digest, Record>, n: nat)
    requires n < |disk.index|
    ensures var root := disk.index[n];
            Rebuilt(codec, disk, documents, n + 1) ==
            if ValidRoot(codec, disk.blobs, root)
            then Rebuilt(codec, disk, documents, n)[
                   root := RepairedRecord(ReadManifest(codec, disk.blobs, root).value, Previous(documents, root))]
            else Rebuilt(codec, disk, documents, n)
  {
    ValidRootsNext(codec, disk, n);
  }

  lemma {:induction false} CheckedDocuments(codec: Codec, disk: Disk, documents: map<Digest, Record>,
                                            start: Progress, n: nat)
    requires n <= |disk.index| && start.documents == map[]
    ensures CheckFirst(codec, disk, true, documents, start, n).documents == Rebuilt(codec, disk, documents, n)
  {
    if n > 0 {
      CheckedDocuments(codec, disk, documents, start, n - 1);
      CheckRootDocuments(codec, disk.blobs, documents,
                         CheckFirst(codec, disk, true, documents, start, n - 1), disk.index[n - 1]);
      RebuiltNext(codec, disk, documents, n - 1);
    }
  }

  /** Checking roots that are all in the catalog adds only issues about documents. */
  lemma {:induction false} CheckedReport(codec: Codec, disk: Disk, repair: bool, documents: map<Digest, Record>,
                                         start: Progress, n: nat)
    requires n <= |disk.index|
    requires forall d :: d in ValidRoots(codec, disk, n) ==> d in documents
    requires forall issue :: issue in start.report.issues ==> issue.InvalidDocument?
    ensures var p := CheckFirst(codec, disk, repair, documents, start, n);
            && p.report.repaired == start.report.repaired
            && forall issue :: issue in p.report.issues ==> issue.InvalidDocument?
  {
    if n > 0 {
      ValidRootsNext(codec, disk, n - 1);
      CheckedReport(codec, disk, repair, documents, start, n - 1);
    }
  }

  /** A repair makes the catalog's keys exactly the valid indexed roots, takes each subject from
      the manifest and keeps origins, source and time of earlier records. */
  lemma RepairRebuilds(codec: Codec, disk: Disk)
    requires CatalogForVerify(disk.catalog, true).Some?
    ensures var documents := CatalogForVerify(disk.catalog, true).value.0;
            VerifiedDisk(codec, disk, true) ==
            SaveCatalog(disk, Rebuilt(codec, disk, documents, |disk.index|))
  {
    var (documents, notes) := CatalogForVerify(disk.catalog, true).value;
    CheckedDocuments(codec, disk, documents,
                     Progress({}, map[], Verification(multiset{}, notes, |disk.index|)), |disk.index|);
  }

  lemma NoExtras()
    ensures DropsOf({}) == multiset{} && ExtrasOf({}) == multiset{}
  {
    assert (set d: Digest | d in {} :: Dropped(d)) == {} && (set d: Digest | d in {} :: CatalogExtra(d)) == {};
  }

  lemma RebuiltIsComplete(codec: Codec, disk: Disk, repair: bool)
    requires CatalogForVerify(disk.catalog, true).Some?
    requires var documents := CatalogForVerify(disk.catalog, true).value.0;
             VerifiedDisk(codec, disk, true) == SaveCatalog(disk, Rebuilt(codec, disk, documents, |disk.index|))
    ensures var after := VerifiedDisk(codec, disk, true);
            && CatalogForVerify(after.catalog, repair).Some?
            && VerifyReport(codec, after, repair).repaired == multiset{}
            && forall issue :: issue in VerifyReport(codec, after, repair).issues ==> issue.InvalidDocument?
  {
    var after := VerifiedDisk(codec, disk, true);
    var once := after.catalog.documents;
    var start := Progress({}, map[], Verification(multiset{}, multiset{}, |after.index|));
    assert CatalogForVerify(after.catalog, repair) == Some((once, multiset{}));
    assert ValidRoots(codec, after, |after.index|) == ValidRoots(codec, disk, |disk.index|) == once.Keys;
    CheckedSeen(codec, after, repair, once, start, |after.index|);
    CheckedReport(codec, after, repair, once, start, |after.index|);
    var p := Checked(codec, after, repair);
    assert p == CheckFirst(codec, after, repair, once, start, |after.index|);
    assert once.Keys - p.seen == {};
    NoExtras();
  }

  /** After a repair, a plain verification reports no catalog issue. */
  lemma RepairSilencesVerify(codec: Codec, disk: Disk)
    requires CatalogForVerify(disk.catalog, true).Some?
    ensures var after := VerifiedDisk(codec, disk, true);
            && CatalogForVerify(after.catalog, false).Some?
            && forall issue :: issue in VerifyReport(codec, after, false).issues ==> issue.InvalidDocument?
  {
    RepairRebuilds(codec, disk);
    RebuiltIsComplete(codec, disk, false);
  }

  /** A second repair reports no repair and changes nothing. */
  lemma RepairIsIdempotent(codec: Codec, disk: Disk)
    requires CatalogForVerify(disk.catalog, true).Some?
    ensures var after := VerifiedDisk(codec, disk, true);
            && CatalogForVerify(after.catalog, true).Some?
            && VerifyReport(codec, after, true).repaired == multiset{}
            && VerifiedDisk(codec, after, true) == after
  {
    RepairRebuilds(codec, disk);
    RebuiltIsComplete(codec, disk, true);
    var after := VerifiedDisk(codec, disk, true);
    RepairRebuilds(codec, after);
    var documents := CatalogForVerify(disk.catalog, true).value.0;
    var once := Rebuilt(codec, disk, documents, |disk.index|);
    assert Rebuilt(codec, after, once, |after.index|) == once by {
      assert ValidRoots(codec, after, |after.index|) == ValidRoots(codec, disk, |disk.index|);
    }
  }

  /** A catalog written by a newer version is never touched, and neither is an unreadable one;
      every other state of the catalog can be repaired. */
  lemma RepairableExactly(file: CatalogFile)
    ensures CatalogForVerify(file, true).Some? <==>
            !file.Unreadable? && !(file.Catalog? && file.version > CATALOG_VERSION)
    ensures CatalogForVerify(file, false).Some? <==>
            file.Missing? || (file.Catalog? && file.version == CATALOG_VERSION)
  {
  }

  /** Root r passes: its manifest is present, intact, within the size limit and decodable, and
      verification of the artifact accepts it. */
  ghost predicate Passes(codec: Codec, blobs: map<Digest, Bytes>, r: Digest) {
    && r in blobs && |blobs[r]| <= MAX_METADATA_SIZE && codec.hash(blobs[r]) == r
    && codec.manifest(blobs[r]).Some? && codec.verify(blobs, r)
  }

  /** What the checks of the first n roots add to a report that starts without any finding. */
  ghost predicate RootsReported(codec: Codec, disk: Disk, repair: bool, documents: map<Digest, Record>,
                                n: nat, d: Digest, notes: multiset<Repair>, report: Verification)
    requires n <= |disk.index|
  {
    var listed, passes := d in disk.index[..n], Passes(codec, disk.blobs, d);
    && (InvalidDocument(d) in report.issues <==> listed && !passes)
    && (CatalogMisses(d) in report.issues <==> !repair && listed && passes && d !in documents)
    && CatalogExtra(d) !in report.issues
    && (Added(d) in report.repaired <==> repair && listed && passes && d !in documents)
    && Dropped(d) !in report.repaired
    && report.repaired[RebuiltMissing] == notes[RebuiltMissing]
    && report.repaired[RebuiltMalformed] == notes[RebuiltMalformed]
    && report.documents == |disk.index|
  }

  lemma RootFound(codec: Codec, disk: Disk, repair: bool, documents: map<Digest, Record>, notes: multiset<Repair>,
                  n: nat, d: Digest, before: Progress)
    requires n < |disk.index| && RootsReported(codec, disk, repair, documents, n, d, notes, before.report)
    ensures RootsReported(codec, disk, repair, documents, n + 1, d, notes,
                          CheckRoot(codec, disk.blobs, repair, documents, before, disk.index[n]).report)
  {
    assert disk.index[..n + 1] == disk.index[..n] + [disk.index[n]];
    assert ValidRoot(codec, disk.blobs, disk.index[n]) <==> Passes(codec, disk.blobs, disk.index[n]);
  }

  lemma {:induction false} RootsFound(codec: Codec, disk: Disk, repair: bool, documents: map<Digest, Record>,
                                      notes: multiset<Repair>, n: nat, d: Digest)
    requires n <= |disk.index| && forall x :: x in notes ==> x == RebuiltMissing || x == RebuiltMalformed
    ensures RootsReported(codec, disk, repair, documents, n, d, notes,
                          CheckFirst(codec, disk, repair, documents,
                                     Progress({}, map[], Verification(multiset{}, notes, |disk.index|)), n).report)
  {
    if n > 0 {
      RootsFound(codec, disk, repair, documents, notes, n - 1, d);
      var before := CheckFirst(codec, disk, repair, documents,
                               Progress({}, map[], Verification(multiset{}, notes, |disk.index|)), n - 1);
      RootFound(codec, disk, repair, documents, notes, n - 1, d, before);
    }
  }

  /** The records a catalog file holds for this version. */
  ghost predicate Holds(file: CatalogFile, documents: map<Digest, Record>) {
    if file.Catalog? && file.version == CATALOG_VERSION then documents == file.documents else documents == map[]
  }

  lemma StartsFrom(disk: Disk, repair: bool)
    requires CatalogForVerify(disk.catalog, repair).Some?
    ensures var (documents, notes) := CatalogForVerify(disk.catalog, repair).value;
            && Holds(disk.catalog, documents)
            && (RebuiltMissing in notes <==> repair && disk.catalog.Missing?)
            && (RebuiltMalformed in notes <==>
                  && repair && !disk.catalog.Missing?
                  && !(disk.catalog.Catalog? && disk.catalog.version == CATALOG_VERSION))
            && forall x :: x in notes ==> x == RebuiltMissing || x == RebuiltMalformed
  {
  }

  lemma ExtrasReported(repair: bool, p: Progress, keys: set<Digest>, d: Digest)
    ensures var report := ExtraReport(repair, p, keys);
            && (CatalogExtra(d) in report.issues <==>
                  CatalogExtra(d) in p.report.issues || (!repair && d in keys && d !in p.seen))
            && (Dropped(d) in report.repaired <==>
                  Dropped(d) in p.report.repaired || (repair && d in keys && d !in p.seen))
            && (InvalidDocument(d) in report.issues <==> InvalidDocument(d) in p.report.issues)
            && (CatalogMisses(d) in report.issues <==> CatalogMisses(d) in p.report.issues)
            && (Added(d) in report.repaired <==> Added(d) in p.report.repaired)
            && (RebuiltMissing in report.repaired <==> RebuiltMissing in p.report.repaired)
            && (RebuiltMalformed in report.repaired <==> RebuiltMalformed in p.report.repaired)
            && report.documents == p.report.documents
  {
  }

  lemma SeenPasses(codec: Codec, disk: Disk, d: Digest)
    ensures d in ValidRoots(codec, disk, |disk.index|) <==> d in disk.index && Passes(codec, disk.blobs, d)
  {
    if d in disk.index {
      var i :| 0 <= i < |disk.index| && disk.index[i] == d;
      assert ValidRoot(codec, disk.blobs, disk.index[i]) <==> Passes(codec, disk.blobs, d);
    }
  }

  /** What a verification reports of every digest, on the index, the blobs and the catalog file:
      listed documents that do not pass, passing ones without a record, records without a
      passing listed document; a repair reports the last two as added and dropped instead, and
      that it replaced a missing or an invalid catalog. */
  lemma VerifyReportsExactly(codec: Codec, disk: Disk, repair: bool, d: Digest, documents: map<Digest, Record>)
    requires CatalogForVerify(disk.catalog, repair).Some? && Holds(disk.catalog, documents)
    ensures var report, passes := VerifyReport(codec, disk, repair), d in disk.index && Passes(codec, disk.blobs, d);
            && report.documents == |disk.index|
            && (InvalidDocument(d) in report.issues <==> d in disk.index && !Passes(codec, disk.blobs, d))
            && (CatalogMisses(d) in report.issues <==> !repair && passes && d !in documents)
            && (CatalogExtra(d) in report.issues <==> !repair && d in documents && !passes)
            && (Added(d) in report.repaired <==> repair && passes && d !in documents)
            && (Dropped(d) in report.repaired <==> repair && d in documents && !passes)
            && (RebuiltMissing in report.repaired <==> repair && disk.catalog.Missing?)
            && (RebuiltMalformed in report.repaired <==>
                  && repair && !disk.catalog.Missing?
                  && !(disk.catalog.Catalog? && disk.catalog.version == CATALOG_VERSION))
  {
    var notes := CatalogForVerify(disk.catalog, repair).value.1;
    var start := Progress({}, map[], Verification(multiset{}, notes, |disk.index|));
    StartsFrom(disk, repair);
    RootsFound(codec, disk, repair, documents, notes, |disk.index|, d);
    assert disk.index[..|disk.index|] == disk.index;
    CheckedSeen(codec, disk, repair, documents, start, |disk.index|);
    SeenPasses(codec, disk, d);
    ExtrasReported(repair, Checked(codec, disk, repair), documents.Keys, d);
  }

  /** The records a repair writes, on the records it read: one per listed document that passes,
      with the subject of its manifest and with the origins, source and time it had, or none. */
  lemma RepairedRecords(codec: Codec, disk: Disk, d: Digest)
    requires CatalogForVerify(disk.catalog, true).Some?
    ensures var before, after := CatalogForVerify(disk.catalog, true).value.0, VerifiedDisk(codec, disk, true).catalog;
            && after.Catalog? && after.version == 1
            && (d in after.documents <==> d in disk.index && Passes(codec, disk.blobs, d))
            && (d in after.documents ==>
                  && codec.manifest(disk.blobs[d]).Some?
                  && after.documents[d].subject == codec.manifest(disk.blobs[d]).value.subject
                  && (if d in before then
                        && after.documents[d].origins == before[d].origins
                        && after.documents[d].source == before[d].source
                        && after.documents[d].updatedAt == before[d].updatedAt
                      else
                        && after.documents[d].origins == [] && after.documents[d].source == ""
                        && after.documents[d].updatedAt == 0))
  {
    RepairRebuilds(codec, disk);
    SeenPasses(codec, disk, d);
  }

  /** Verification of a store in which the reads of some roots fail. */
  function Unreliable(codec: Codec, readable: Digest -> bool): Codec {
    codec.(verify := (blobs: map<Digest, Bytes>, d: Digest) => readable(d) && codec.verify(blobs, d))
  }

  /** A repair with failing reads: the record of a valid indexed root survives exactly when the
      root's own read did not fail; a root whose read failed is reported, and its record is
      reported as dropped. */
  lemma RepairNeedsReads(codec: Codec, disk: Disk, readable: Digest -> bool, root: Digest)
    requires root in disk.index && ValidRoot(codec, disk.blobs, root)
    requires CatalogForVerify(disk.catalog, true).Some? && root in CatalogForVerify(disk.catalog, true).value.0
    ensures var after := VerifiedDisk(Unreliable(codec, readable), disk, true);
            && LoadCatalog(after.catalog).Ok?
            && (root in LoadCatalog(after.catalog).value <==> readable(root))
    ensures !readable(root) ==>
              var report := VerifyReport(Unreliable(codec, readable), disk, true);
              InvalidDocument(root) in report.issues && Dropped(root) in report.repaired
  {
    var weak := Unreliable(codec, readable);
    RepairRebuilds(weak, disk);
    var i :| 0 <= i < |disk.index| && disk.index[i] == root;
    assert ReadManifest(weak, disk.blobs, root) == ReadManifest(codec, disk.blobs, root);
    assert ValidRoot(weak, disk.blobs, disk.index[i]) <==> readable(root);
    var documents := CatalogForVerify(disk.catalog, true).value.0;
    StartsFrom(disk, true);
    VerifyReportsExactly(weak, disk, true, root, documents);
  }
}
