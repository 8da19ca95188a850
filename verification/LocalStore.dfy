/** The store handle's operations as the program runs them under the catalog lock. Every read
    or write may fail; each method returns the run of body steps it went through. */
module LocalStore {
  import opened Prelude
  import opened StoreDisk
  import opened Metadata
  import opened StoreBody

  datatype StoreError = MetadataRejected | NotFound | CatalogError(e: LoadError) | Io

  ghost predicate StepAt(codec: Codec, trace: seq<Config>, i: nat)
    requires i + 1 < |trace|
  {
    Step(codec, trace[i], trace[i + 1])
  }

  /** A sequence of body steps. */
  ghost predicate IsTrace(codec: Codec, trace: seq<Config>) {
    trace != [] && forall i :: 0 <= i < |trace| - 1 ==> StepAt(codec, trace, i)
  }

  ghost function Last(trace: seq<Config>): Config
    requires trace != []
  {
    trace[|trace| - 1]
  }

  /** The run goes from the start of op on one disk to its end on another. */
  ghost predicate Runs(codec: Codec, op: Op, before: Disk, trace: seq<Config>, end: Body, after: Disk) {
    && IsTrace(codec, trace)
    && trace[0] == Config(Begin(op), before, before.index)
    && Last(trace).body == end && Last(trace).disk == after
  }

  lemma Extend(codec: Codec, trace: seq<Config>, c: Config)
    requires IsTrace(codec, trace) && Step(codec, Last(trace), c)
    ensures IsTrace(codec, trace + [c]) && Last(trace + [c]) == c && (trace + [c])[0] == trace[0]
  {
    var all := trace + [c];
    forall i | 0 <= i < |all| - 1 ensures StepAt(codec, all, i) {
      if i < |trace| - 1 {
        assert StepAt(codec, trace, i);
        assert all[i] == trace[i] && all[i + 1] == trace[i + 1];
      }
    }
  }

  lemma PruneExtends(codec: Codec, trace: seq<Config>, c: Config)
    requires IsTrace(codec, trace) && PruneStep(codec, Last(trace), c)
    ensures IsTrace(codec, trace + [c]) && Last(trace + [c]) == c && (trace + [c])[0] == trace[0]
  {
    Extend(codec, trace, c);
  }

  lemma VerifyExtends(codec: Codec, trace: seq<Config>, c: Config)
    requires IsTrace(codec, trace) && VerifyStep(codec, Last(trace), c)
    ensures IsTrace(codec, trace + [c]) && Last(trace + [c]) == c && (trace + [c])[0] == trace[0]
  {
    Extend(codec, trace, c);
  }

  lemma Fail(codec: Codec, trace: seq<Config>)
    requires IsTrace(codec, trace) && !Last(trace).body.Done? && !Last(trace).body.Failed?
    ensures var c := Last(trace).(body := Failed);
            IsTrace(codec, trace + [c]) && Last(trace + [c]) == c && (trace + [c])[0] == trace[0]
  {
    Extend(codec, trace, Last(trace).(body := Failed));
  }

  /** The disk after the first n components were pushed. */
  function PushedComponents(src: Source, disk: Disk, n: nat): Disk
    requires n <= |src.components|
  {
    if n == 0 then disk
    else PushIfMissing(PushedComponents(src, disk, n - 1),
                       src.components[n - 1].descriptor.digest, ComponentContent(src, n - 1))
  }

  function PushedGraph(op: Op, disk: Disk): Disk
    requires op.Commit?
  {
    PushedComponents(op.src, PushIfMissing(disk, op.src.manifest.config, op.src.configBytes),
                     |op.src.components|)
  }

  lemma {:induction false} ComponentsKeepRest(src: Source, disk: Disk, n: nat)
    requires n <= |src.components|
    ensures PushedComponents(src, disk, n).index == disk.index
    ensures PushedComponents(src, disk, n).catalog == disk.catalog
  {
    if n > 0 { ComponentsKeepRest(src, disk, n - 1); }
  }

  lemma PushedKeepsRest(op: Op, disk: Disk)
    requires op.Commit?
    ensures PushedGraph(op, disk).index == disk.index && PushedGraph(op, disk).catalog == disk.catalog
  {
    ComponentsKeepRest(op.src, PushIfMissing(disk, op.src.manifest.config, op.src.configBytes), |op.src.components|);
  }

  /** The disk a completed commit leaves. */
  function CommittedDisk(op: Op, disk: Disk): Disk
    requires op.Commit? && LoadCatalog(disk.catalog).Ok?
  {
    var graph, documents := PushedGraph(op, disk), LoadCatalog(disk.catalog).value;
    var indexed := if op.src.root in graph.blobs then graph
                   else PushManifest(graph, disk.index, op.src.root, op.src.rootBytes);
    SaveCatalog(indexed, documents[op.src.root := CommitRecord(op, documents)])
  }

  /** The blobs reachable from the first n roots. */
  function ReachFirst(codec: Codec, blobs: map<Digest, Bytes>, roots: seq<Digest>, n: nat): set<Digest>
    requires n <= |roots|
  {
    if n == 0 then {}
    else
      var m := ReadManifest(codec, blobs, roots[n - 1]);
      ReachFirst(codec, blobs, roots, n - 1) + (if m.Some? then Reach(roots[n - 1], m.value) else {})
  }

  function ReachAll(codec: Codec, disk: Disk): set<Digest> {
    ReachFirst(codec, disk.blobs, disk.index, |disk.index|)
  }

  function Kept(blobs: map<Digest, Bytes>, keep: set<Digest>): map<Digest, Bytes> {
    map d | d in blobs && d in keep :: blobs[d]
  }

  ghost function Garbage(codec: Codec, disk: Disk): (r: seq<Digest>)
    ensures forall d :: d in r <==> d in disk.blobs && d !in ReachAll(codec, disk)
  {
    ListingMembers(disk.blobs.Keys);
    Outside(Listing(disk.blobs.Keys), ReachAll(codec, disk))
  }

  /** Verify's checks of the first n roots. */
  function CheckFirst(codec: Codec, disk: Disk, repair: bool, documents: map<Digest, Record>,
                      start: Progress, n: nat): Progress
    requires n <= |disk.index|
  {
    if n == 0 then start
    else CheckRoot(codec, disk.blobs, repair, documents,
                   CheckFirst(codec, disk, repair, documents, start, n - 1), disk.index[n - 1])
  }

  function DropsOf(extras: set<Digest>): multiset<Repair> {
    multiset(set d | d in extras :: Dropped(d))
  }

  function ExtrasOf(extras: set<Digest>): multiset<Issue> {
    multiset(set d | d in extras :: CatalogExtra(d))
  }

  /** What the remaining catalog records add to a report. */
  function ExtraReport(repair: bool, p: Progress, keys: set<Digest>): Verification {
    if repair then p.report.(repaired := p.report.repaired + DropsOf(keys - p.seen))
    else p.report.(issues := p.report.issues + ExtrasOf(keys - p.seen))
  }

  /** The progress after all roots, from the catalog Verify starts with. */
  function Checked(codec: Codec, disk: Disk, repair: bool): Progress
    requires CatalogForVerify(disk.catalog, repair).Some?
  {
    var (documents, notes) := CatalogForVerify(disk.catalog, repair).value;
    CheckFirst(codec, disk, repair, documents,
               Progress({}, map[], Verification(multiset{}, notes, |disk.index|)), |disk.index|)
  }

  function VerifyReport(codec: Codec, disk: Disk, repair: bool): Verification
    requires CatalogForVerify(disk.catalog, repair).Some?
  {
    ExtraReport(repair, Checked(codec, disk, repair), CatalogForVerify(disk.catalog, repair).value.0.Keys)
  }

  function VerifiedDisk(codec: Codec, disk: Disk, repair: bool): Disk
    requires CatalogForVerify(disk.catalog, repair).Some?
  {
    if repair then SaveCatalog(disk, Checked(codec, disk, repair).documents) else disk
  }

  /** The trace after one more catalog record was checked. */
  ghost function ExtendExtra(codec: Codec, trace: seq<Config>, d: Digest): (r: seq<Config>)
    requires IsTrace(codec, trace) && Last(trace).body.CheckExtras? && Last(trace).body.op.Verify?
    requires d in Last(trace).body.documents
    ensures IsTrace(codec, r) && r[0] == trace[0] && Last(r) == AfterExtra(Last(trace), d)
  {
    assert VerifyStep(codec, Last(trace), AfterExtra(Last(trace), d));
    VerifyExtends(codec, trace, AfterExtra(Last(trace), d));
    trace + [AfterExtra(Last(trace), d)]
  }

  /** Every indexed root can be read and decoded. */
  ghost predicate AllReadable(codec: Codec, disk: Disk) {
    forall i :: 0 <= i < |disk.index| ==> ReadManifest(codec, disk.blobs, disk.index[i]).Some?
  }

  lemma DropsAdd(xs: set<Digest>, d: Digest)
    requires d in xs
    ensures DropsOf(xs) == DropsOf(xs - {d}) + multiset{Dropped(d)}
  {
    assert (set k | k in xs :: Dropped(k)) == (set k | k in xs - {d} :: Dropped(k)) + {Dropped(d)};
  }

  lemma ExtrasAdd(xs: set<Digest>, d: Digest)
    requires d in xs
    ensures ExtrasOf(xs) == ExtrasOf(xs - {d}) + multiset{CatalogExtra(d)}
  {
    assert (set k | k in xs :: CatalogExtra(k)) == (set k | k in xs - {d} :: CatalogExtra(k)) + {CatalogExtra(d)};
  }

  lemma OneMoreExtra(repair: bool, p: Progress, keys: set<Digest>, d: Digest)
    requires d in keys
    ensures ExtraReport(repair, CheckExtra(repair, p, d), keys - {d}) == ExtraReport(repair, p, keys)
  {
    if d in p.seen {
      assert keys - {d} - p.seen == keys - p.seen;
    } else {
      assert keys - {d} - p.seen == keys - p.seen - {d};
      DropsAdd(keys - p.seen, d);
      ExtrasAdd(keys - p.seen, d);
    }
  }

  lemma NoMoreExtras(repair: bool, p: Progress)
    ensures ExtraReport(repair, p, {}) == p.report
  {
    assert {} - p.seen == {};
    assert DropsOf({}) == multiset{} && ExtrasOf({}) == multiset{};
  }

  class Store {
    const codec: Codec
    var disk: Disk
    var oci: seq<Digest>

    constructor (codec: Codec, disk: Disk)
      ensures this.codec == codec && this.disk == disk && oci == disk.index
    {
      this.codec, this.disk, this.oci := codec, disk, disk.index;
    }

    /** pushIfMissing of a configuration or component blob. */
    method PushContent(d: Digest, content: Bytes) returns (ok: bool)
      modifies this`disk
      ensures ok ==> CanPush(codec, old(disk), d, content) && disk == PushIfMissing(old(disk), d, content)
      ensures !ok ==> disk == old(disk)
    {
      ok := *;
      if !ok || d in disk.blobs {
        return;
      }
      if codec.hash(content) != d {
        return false;
      }
      disk := PushBlob(disk, d, content);
    }

    /** commitComponents: every component in the source's order. */
    method CommitComponents(op: Op, ghost start: seq<Config>) returns (ok: bool, ghost trace: seq<Config>)
      requires op.Commit? && IsTrace(codec, start) && Last(start) == Config(PushComponent(op, 0), disk, oci)
      modifies this`disk
      ensures IsTrace(codec, trace) && trace[0] == start[0]
      ensures Last(trace) == Config(if ok then PushRoot(op) else Failed, disk, oci)
      ensures ok ==> disk == PushedComponents(op.src, old(disk), |op.src.components|)
    {
      trace := start;
      var next := 0;
      while next < |op.src.components|
        invariant next <= |op.src.components|
        invariant disk == PushedComponents(op.src, old(disk), next)
        invariant IsTrace(codec, trace) && trace[0] == start[0]
        invariant Last(trace) == Config(PushComponent(op, next), disk, oci)
      {
        ok := PushContent(op.src.components[next].descriptor.digest, ComponentContent(op.src, next));
        if !ok {
          Fail(codec, trace);
          return false, trace + [Last(trace).(body := Failed)];
        }
        Extend(codec, trace, Config(PushComponent(op, next + 1), disk, oci));
        trace := trace + [Config(PushComponent(op, next + 1), disk, oci)];
        next := next + 1;
      }
      Extend(codec, trace, Config(PushRoot(op), disk, oci));
      return true, trace + [Config(PushRoot(op), disk, oci)];
    }

    /** recordDocument: merges the document into the catalog. */
    method RecordDocument(op: Op, ghost start: seq<Config>)
      returns (r: Result<Document, StoreError>, ghost trace: seq<Config>)
      requires op.Commit? && IsTrace(codec, start) && Last(start) == Config(StoreBody.RecordDocument(op), disk, oci)
      modifies this`disk
      ensures IsTrace(codec, trace) && trace[0] == start[0]
      ensures Last(trace) == Config(if r.Ok? then Done(Committed(r.value)) else Failed, disk, oci)
      ensures r.Err? ==> r.error != MetadataRejected && disk == old(disk)
      ensures r.Ok? ==> LoadCatalog(old(disk).catalog).Ok?
      ensures r.Ok? ==> var documents := LoadCatalog(old(disk).catalog).value;
                        && r.value == Document(op.src.root, CommitRecord(op, documents))
                        && disk == SaveCatalog(old(disk), documents[op.src.root := r.value.record])
      ensures r.Ok? ==> CatalogRecords(op, old(disk).catalog, disk.catalog)
    {
      var loaded := LoadCatalog(disk.catalog);
      var ok := *;
      if loaded.Err? || !ok {
        Fail(codec, start);
        return Err(if loaded.Err? then CatalogError(loaded.error) else Io), start + [Last(start).(body := Failed)];
      }
      var doc := Document(op.src.root, CommitRecord(op, loaded.value));
      RecordMeaning(op, loaded.value);
      disk := SaveCatalog(disk, loaded.value[op.src.root := doc.record]);
      Extend(codec, start, Config(Done(Committed(doc)), disk, oci));
      return Ok(doc), start + [Config(Done(Committed(doc)), disk, oci)];
    }

    /** Commit. */
    method Commit(op: Op) returns (r: Result<Document, StoreError>, ghost trace: seq<Config>)
      requires op.Commit?
      modifies this
      ensures r == Err(MetadataRejected) <==> !MetadataValid(codec, op.src)
      ensures r == Err(MetadataRejected) ==> disk == old(disk)
      ensures r != Err(MetadataRejected) ==>
                Runs(codec, op, old(disk), trace, if r.Ok? then Done(Committed(r.value)) else Failed, disk)
      ensures r.Ok? ==> LoadCatalog(old(disk).catalog).Ok? && disk == CommittedDisk(op, old(disk))
                        && r.value == Document(op.src.root, disk.catalog.documents[op.src.root])
      ensures r.Ok? ==> CatalogRecords(op, old(disk).catalog, disk.catalog)
    {
      var valid := ValidateMetadata(codec, op.src);
      if !valid {
        return Err(MetadataRejected), [];
      }
      oci := disk.index;
      trace := [Config(Begin(op), disk, oci)];
      var ok := PushContent(op.src.manifest.config, op.src.configBytes);
      if !ok {
        Fail(codec, trace);
        return Err(Io), trace + [Last(trace).(body := Failed)];
      }
      Extend(codec, trace, Config(PushComponent(op, 0), disk, oci));
      ok, trace := CommitComponents(op, trace + [Config(PushComponent(op, 0), disk, oci)]);
      if !ok {
        return Err(Io), trace;
      }
      PushedKeepsRest(op, old(disk));
      ok := *;
      if !ok {
        Fail(codec, trace);
        return Err(Io), trace + [Last(trace).(body := Failed)];
      }
      if op.src.root !in disk.blobs {
        disk := PushManifest(disk, oci, op.src.root, op.src.rootBytes);
        oci := With(oci, op.src.root);
      }
      Extend(codec, trace, Config(StoreBody.RecordDocument(op), disk, oci));
      r, trace := RecordDocument(op, trace + [Config(StoreBody.RecordDocument(op), disk, oci)]);
    }

    /** Remove. */
    method Remove(op: Op) returns (r: Result<(), StoreError>, ghost trace: seq<Config>)
      requires op.Remove?
      modifies this
      ensures Runs(codec, op, old(disk), trace, if r.Ok? then Done(Removed) else Failed, disk)
      ensures r == Err(NotFound) <==> op.root !in old(disk).index
      ensures r.Err? && (r.error == NotFound || r.error.CatalogError?) ==> disk == old(disk)
      ensures r.Ok? ==>
                && LoadCatalog(old(disk).catalog).Ok?
                && disk.blobs == old(disk).blobs - {op.root} && disk.index == Without(old(disk).index, op.root)
                && LoadCatalog(disk.catalog) == Ok(LoadCatalog(old(disk).catalog).value - {op.root})
    {
      oci := disk.index;
      trace := [Config(Begin(op), disk, oci)];
      if op.root !in disk.index {
        Fail(codec, trace);
        return Err(NotFound), trace + [Last(trace).(body := Failed)];
      }
      var loaded := LoadCatalog(disk.catalog);
      if loaded.Err? {
        Fail(codec, trace);
        return Err(CatalogError(loaded.error)), trace + [Last(trace).(body := Failed)];
      }
      Extend(codec, trace, Config(DeleteRoot(op, loaded.value), disk, oci));
      trace := trace + [Config(DeleteRoot(op, loaded.value), disk, oci)];
      var ok := *;
      if !ok {
        Fail(codec, trace);
        return Err(Io), trace + [Last(trace).(body := Failed)];
      }
      disk := DeleteManifest(disk, oci, op.root);
      oci := Without(oci, op.root);
      Extend(codec, trace, Config(ForgetRecord(op, loaded.value), disk, oci));
      trace := trace + [Config(ForgetRecord(op, loaded.value), disk, oci)];
      if op.root in loaded.value {
        ok := *;
        if !ok {
          Fail(codec, trace);
          return Err(Io), trace + [Last(trace).(body := Failed)];
        }
        disk := SaveCatalog(disk, loaded.value - {op.root});
      } else {
        assert loaded.value - {op.root} == loaded.value;
      }
      Extend(codec, trace, Config(Done(Removed), disk, oci));
      return Ok(()), trace + [Config(Done(Removed), disk, oci)];
    }

    /** One turn of reachableBlobs. */
    method MarkRoot(op: Op, next: nat, reachable: set<Digest>, ghost start: seq<Config>)
      returns (r: Option<set<Digest>>, ghost trace: seq<Config>)
      requires op.Prune? && IsTrace(codec, start) && next < |disk.index|
      requires Last(start) == Config(MarkRoots(op, disk.index, next, reachable), disk, oci)
      ensures IsTrace(codec, trace) && trace[0] == start[0]
      ensures Last(trace) ==
              Config(if r.Some? then MarkRoots(op, disk.index, next + 1, r.value) else Failed, disk, oci)
      ensures r.Some? ==> ReadManifest(codec, disk.blobs, disk.index[next]).Some?
                          && r.value == reachable + Reach(disk.index[next],
                                                          ReadManifest(codec, disk.blobs, disk.index[next]).value)
    {
      var m := ReadManifest(codec, disk.blobs, disk.index[next]);
      var ok := *;
      if m.None? || !ok {
        Fail(codec, start);
        return None, start + [Last(start).(body := Failed)];
      }
      r := Some(reachable + Reach(disk.index[next], m.value));
      PruneExtends(codec, start, Config(MarkRoots(op, disk.index, next + 1, r.value), disk, oci));
      trace := start + [Config(MarkRoots(op, disk.index, next + 1, r.value), disk, oci)];
    }

    /** reachableBlobs: marks what every indexed root needs. */
    method ReachableBlobs(op: Op, ghost start: seq<Config>)
      returns (r: Option<set<Digest>>, ghost trace: seq<Config>)
      requires op.Prune? && IsTrace(codec, start)
      requires Last(start) == Config(MarkRoots(op, disk.index, 0, {}), disk, oci)
      ensures IsTrace(codec, trace) && trace[0] == start[0]
      ensures Last(trace) == Config(if r.Some? then Measure(op, r.value) else Failed, disk, oci)
      ensures r.Some? ==> r.value == ReachAll(codec, disk) && AllReadable(codec, disk)
    {
      trace := start;
      var reachable: set<Digest> := {};
      var next := 0;
      while next < |disk.index|
        invariant next <= |disk.index|
        invariant reachable == ReachFirst(codec, disk.blobs, disk.index, next)
        invariant forall i :: 0 <= i < next ==> ReadManifest(codec, disk.blobs, disk.index[i]).Some?
        invariant IsTrace(codec, trace) && trace[0] == start[0]
        invariant Last(trace) == Config(MarkRoots(op, disk.index, next, reachable), disk, oci)
      {
        var marked;
        marked, trace := MarkRoot(op, next, reachable, trace);
        if marked.None? {
          return None, trace;
        }
        reachable := marked.value;
        next := next + 1;
      }
      PruneExtends(codec, trace, Config(Measure(op, reachable), disk, oci));
      return Some(reachable), trace + [Config(Measure(op, reachable), disk, oci)];
    }

    /** measureUnreachable: walks the blob files in lexical order. */
    method MeasureUnreachable(reachable: set<Digest>, files: seq<Digest>) returns (count: nat, bytes: nat)
      requires forall d :: d in files ==> d in disk.blobs
      ensures count == |Outside(files, reachable)| && bytes == SizeOf(disk.blobs, Outside(files, reachable))
    {
      count, bytes := 0, 0;
      var i := 0;
      while i < |files|
        invariant i <= |files|
        invariant count + |Outside(files[i..], reachable)| == |Outside(files, reachable)|
        invariant bytes + SizeOf(disk.blobs, Outside(files[i..], reachable))
                  == SizeOf(disk.blobs, Outside(files, reachable))
      {
        assert files[i..][1..] == files[i + 1..];
        if files[i] !in reachable {
          count := count + 1;
          bytes := bytes + |disk.blobs[files[i]]|;
          assert Outside(files[i..], reachable)[1..] == Outside(files[i + 1..], reachable);
        }
        i := i + 1;
      }
    }

    /** removeUnreachable: deletes blob by blob. */
    method RemoveUnreachable(op: Op, reachable: set<Digest>, files: seq<Digest>, count: nat, bytes: nat,
                             ghost start: seq<Config>)
      returns (ok: bool, ghost trace: seq<Config>)
      requires op.Prune? && IsTrace(codec, start) && Elements(files) == disk.blobs.Keys
      requires Last(start) == Config(Sweep(op, reachable, files, count, bytes), disk, oci)
      modifies this`disk
      ensures IsTrace(codec, trace) && trace[0] == start[0]
      ensures Last(trace) == Config(if ok then Done(Pruned(count, bytes)) else Failed, disk, oci)
      ensures ok ==> disk == old(disk).(blobs := Kept(old(disk).blobs, reachable))
      ensures disk.index == old(disk).index && disk.catalog == old(disk).catalog
      ensures forall d :: d in disk.blobs ==> d in old(disk).blobs && disk.blobs[d] == old(disk).blobs[d]
      ensures forall d :: d in old(disk).blobs && d in reachable ==> d in disk.blobs
    {
      trace := start;
      var i := 0;
      while i < |files|
        invariant i <= |files|
        invariant disk == old(disk).(blobs := disk.blobs)
        invariant forall d :: d in disk.blobs ==> d in old(disk).blobs && disk.blobs[d] == old(disk).blobs[d]
        invariant forall d :: d in old(disk).blobs && (d in reachable || d !in files[..i]) ==> d in disk.blobs
        invariant forall d :: d in disk.blobs && d in files[..i] ==> d in reachable
        invariant IsTrace(codec, trace) && trace[0] == start[0]
        invariant Last(trace) == Config(Sweep(op, reachable, files[i..], count, bytes), disk, oci)
      {
        assert files[i..][1..] == files[i + 1..];
        assert files[..i + 1] == files[..i] + [files[i]];
        if files[i] !in reachable {
          var removed := *;
          if !removed {
            Fail(codec, trace);
            return false, trace + [Last(trace).(body := Failed)];
          }
          disk := disk.(blobs := disk.blobs - {files[i]});
        }
        i := i + 1;
        PruneExtends(codec, trace, Config(Sweep(op, reachable, files[i..], count, bytes), disk, oci));
        trace := trace + [Config(Sweep(op, reachable, files[i..], count, bytes), disk, oci)];
      }
      assert files[..i] == files;
      forall d | d in disk.blobs ensures d in reachable { assert d in Elements(files); }
      assert disk.blobs == Kept(old(disk).blobs, reachable);
      PruneExtends(codec, trace, Config(Done(Pruned(count, bytes)), disk, oci));
      return true, trace + [Config(Done(Pruned(count, bytes)), disk, oci)];
    }

    /** The blob files in lexical order, as a directory walk meets them. */
    method ListBlobs() returns (files: seq<Digest>)
      ensures files == Listing(disk.blobs.Keys) && Elements(files) == disk.blobs.Keys
    {
      files := SortedKeys(disk.blobs.Keys);
    }

    /** Prune. */
    method Prune(op: Op) returns (r: Result<(nat, nat), StoreError>, ghost trace: seq<Config>)
      requires op.Prune?
      modifies this
      ensures Runs(codec, op, old(disk), trace, if r.Ok? then Done(Pruned(r.value.0, r.value.1)) else Failed, disk)
      ensures r.Ok? ==>
                && AllReadable(codec, old(disk))
                && r.value.0 == |Garbage(codec, old(disk))|
                && r.value.1 == SizeOf(old(disk).blobs, Garbage(codec, old(disk)))
                && disk == if op.dryRun then old(disk)
                           else old(disk).(blobs := Kept(old(disk).blobs, ReachAll(codec, old(disk))))
      ensures op.dryRun ==> disk == old(disk)
      ensures disk.index == old(disk).index && disk.catalog == old(disk).catalog
      ensures forall d :: d in disk.blobs ==> d in old(disk).blobs && disk.blobs[d] == old(disk).blobs[d]
      ensures forall d :: d in old(disk).blobs && d in ReachAll(codec, old(disk)) ==> d in disk.blobs
    {
      oci := disk.index;
      trace := [Config(Begin(op), disk, oci)];
      PruneExtends(codec, trace, Config(MarkRoots(op, disk.index, 0, {}), disk, oci));
      var marked;
      marked, trace := ReachableBlobs(op, trace + [Config(MarkRoots(op, disk.index, 0, {}), disk, oci)]);
      if marked.None? {
        return Err(Io), trace;
      }
      var reachable := marked.value;
      var files := ListBlobs();
      var count, bytes := MeasureUnreachable(reachable, files);
      if op.dryRun {
        PruneExtends(codec, trace, Config(Done(Pruned(count, bytes)), disk, oci));
        return Ok((count, bytes)), trace + [Config(Done(Pruned(count, bytes)), disk, oci)];
      }
      PruneExtends(codec, trace, Config(Sweep(op, reachable, files, count, bytes), disk, oci));
      var ok;
      ok, trace := RemoveUnreachable(op, reachable, files, count, bytes,
                                     trace + [Config(Sweep(op, reachable, files, count, bytes), disk, oci)]);
      return if ok then Ok((count, bytes)) else Err(Io), trace;
    }

    /** The check of one catalog record. */
    method CheckOneExtra(op: Op, documents: map<Digest, Record>, progress: Progress, d: Digest,
                         ghost start: seq<Config>)
      returns (rest: map<Digest, Record>, p: Progress, ghost trace: seq<Config>)
      requires op.Verify? && IsTrace(codec, start) && d in documents
      requires Last(start) == Config(CheckExtras(op, documents, progress), disk, oci)
      ensures IsTrace(codec, trace) && trace[0] == start[0]
      ensures Last(trace) == Config(CheckExtras(op, rest, p), disk, oci)
      ensures rest == documents - {d} && p.seen == progress.seen && p.documents == progress.documents
      ensures ExtraReport(op.repair, p, rest.Keys) == ExtraReport(op.repair, progress, documents.Keys)
    {
      OneMoreExtra(op.repair, progress, documents.Keys, d);
      rest, p := documents - {d}, CheckExtra(op.repair, progress, d);
      assert rest.Keys == documents.Keys - {d};
      trace := ExtendExtra(codec, start, d);
    }

    /** The checks of every catalog record, in whatever order the map is iterated. */
    method CheckExtraRecords(op: Op, documents: map<Digest, Record>, progress: Progress, ghost start: seq<Config>)
      returns (report: Verification, ghost trace: seq<Config>)
      requires op.Verify? && IsTrace(codec, start)
      requires Last(start) == Config(CheckExtras(op, documents, progress), disk, oci)
      ensures IsTrace(codec, trace) && trace[0] == start[0]
      ensures Last(trace) == Config(SaveRepaired(op, progress.(report := report)), disk, oci)
      ensures report == ExtraReport(op.repair, progress, documents.Keys)
    {
      trace := start;
      var todo, p := documents, progress;
      while todo != map[]
        invariant p.seen == progress.seen && p.documents == progress.documents
        invariant ExtraReport(op.repair, p, todo.Keys) == ExtraReport(op.repair, progress, documents.Keys)
        invariant IsTrace(codec, trace) && trace[0] == start[0]
        invariant Last(trace) == Config(CheckExtras(op, todo, p), disk, oci)
        decreases |todo|
      {
        var d :| d in todo;
        todo, p, trace := CheckOneExtra(op, todo, p, d, trace);
      }
      NoMoreExtras(op.repair, p);
      report := p.report;
      VerifyExtends(codec, trace, Config(SaveRepaired(op, p), disk, oci));
      trace := trace + [Config(SaveRepaired(op, p), disk, oci)];
    }

    /** The checks of every indexed root, in index order. */
    method CheckIndexedRoots(op: Op, documents: map<Digest, Record>, first: Progress, ghost start: seq<Config>)
      returns (progress: Progress, ghost trace: seq<Config>)
      requires op.Verify? && IsTrace(codec, start)
      requires Last(start) == Config(CheckRoots(op, disk.index, 0, documents, first), disk, oci)
      ensures IsTrace(codec, trace) && trace[0] == start[0]
      ensures Last(trace) == Config(CheckRoots(op, disk.index, |disk.index|, documents, progress), disk, oci)
      ensures progress == CheckFirst(codec, disk, op.repair, documents, first, |disk.index|)
    {
      progress, trace := first, start;
      var next := 0;
      while next < |disk.index|
        invariant next <= |disk.index|
        invariant progress == CheckFirst(codec, disk, op.repair, documents, first, next)
        invariant IsTrace(codec, trace) && trace[0] == start[0]
        invariant Last(trace) == Config(CheckRoots(op, disk.index, next, documents, progress), disk, oci)
      {
        progress := CheckRoot(codec, disk.blobs, op.repair, documents, progress, disk.index[next]);
        next := next + 1;
        VerifyExtends(codec, trace, Config(CheckRoots(op, disk.index, next, documents, progress), disk, oci));
        trace := trace + [Config(CheckRoots(op, disk.index, next, documents, progress), disk, oci)];
      }
    }

    /** Verify. */
    method Verify(op: Op) returns (r: Result<Verification, StoreError>, ghost trace: seq<Config>)
      requires op.Verify?
      modifies this
      ensures Runs(codec, op, old(disk), trace, if r.Ok? then Done(Verified(r.value)) else Failed, disk)
      ensures r.Err? ==> disk == old(disk)
      ensures r.Ok? ==>
                && CatalogForVerify(old(disk).catalog, op.repair).Some?
                && r.value == VerifyReport(codec, old(disk), op.repair)
                && disk == VerifiedDisk(codec, old(disk), op.repair)
    {
      oci := disk.index;
      trace := [Config(Begin(op), disk, oci)];
      var loaded := CatalogForVerify(disk.catalog, op.repair);
      if loaded.None? {
        Fail(codec, trace);
        return Err(Io), trace + [Last(trace).(body := Failed)];
      }
      var (documents, notes) := loaded.value;
      var progress := Progress({}, map[], Verification(multiset{}, notes, |disk.index|));
      VerifyExtends(codec, trace, Config(CheckRoots(op, disk.index, 0, documents, progress), disk, oci));
      trace := trace + [Config(CheckRoots(op, disk.index, 0, documents, progress), disk, oci)];
      progress, trace := CheckIndexedRoots(op, documents, progress, trace);
      VerifyExtends(codec, trace, Config(CheckExtras(op, documents, progress), disk, oci));
      var report;
      report, trace := CheckExtraRecords(op, documents, progress,
                                         trace + [Config(CheckExtras(op, documents, progress), disk, oci)]);
      if op.repair {
        var ok := *;
        if !ok {
          Fail(codec, trace);
          return Err(Io), trace + [Last(trace).(body := Failed)];
        }
        disk := SaveCatalog(disk, progress.documents);
      }
      VerifyExtends(codec, trace, Config(Done(Verified(report)), disk, oci));
      return Ok(report), trace + [Config(Done(Verified(report)), disk, oci)];
    }
  }
}
