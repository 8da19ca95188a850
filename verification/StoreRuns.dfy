/** What every run keeps beyond closure: records stay in the catalog until they are removed or
    found stale, a catalog this version cannot read is never rewritten, and a commit that
    succeeds is indexed and recorded. */
module StoreRuns {
  import opened Prelude
  import opened StoreDisk
  import opened StoreBody
  import opened StoreProtocol
  import StoreTheory

  /** The records of a catalog file; none when it cannot be used. */
  function Records(file: CatalogFile): map<Digest, Record> {
    match LoadCatalog(file)
    case Ok(documents) => documents
    case Err(_) => map[]
  }

  /** A repair keeps a record of every valid root among the first n it has checked. */
  ghost predicate Rebuilding(codec: Codec, disk: Disk, roots: seq<Digest>, n: nat, progress: Progress) {
    forall i :: 0 <= i < n && i < |roots| && ValidRoot(codec, disk.blobs, roots[i]) ==> roots[i] in progress.documents
  }

  /** What a body knows about the catalog: Remove still holds the one on disk, Verify started
      from one it may use and has rebuilt the records of the valid roots it checked, and a
      commit that reports success finds its record. */
  ghost predicate KnowsCatalog(codec: Codec, c: Config) {
    match c.body
    case DeleteRoot(op, documents) => LoadCatalog(c.disk.catalog) == Ok(documents)
    case ForgetRecord(op, documents) => LoadCatalog(c.disk.catalog) == Ok(documents)
    case CheckRoots(op, roots, next, documents, progress) =>
      && op.Verify? && CatalogForVerify(c.disk.catalog, op.repair).Some?
      && roots == c.disk.index
      && (op.repair ==> Rebuilding(codec, c.disk, roots, next, progress))
    case CheckExtras(op, documents, progress) =>
      && op.Verify? && CatalogForVerify(c.disk.catalog, op.repair).Some?
      && (op.repair ==> Rebuilding(codec, c.disk, c.disk.index, |c.disk.index|, progress))
    case SaveRepaired(op, progress) =>
      && op.Verify? && CatalogForVerify(c.disk.catalog, op.repair).Some?
      && (op.repair ==> Rebuilding(codec, c.disk, c.disk.index, |c.disk.index|, progress))
    case Done(Committed(document)) =>
      document.root in Records(c.disk.catalog) && Records(c.disk.catalog)[document.root] == document.record
    case _ => true
  }

  lemma CatalogStep(codec: Codec, isRoot: Digest -> bool, c: Config, c': Config)
    requires BodyInv(codec, isRoot, c) && KnowsCatalog(codec, c) && Step(codec, c, c')
    ensures KnowsCatalog(codec, c')
  {
  }

  /** Every stored blob whose digest is a root's is indexed. */
  ghost predicate RootsIndexed(isRoot: Digest -> bool, disk: Disk) {
    forall d :: d in disk.blobs && isRoot(d) ==> d in disk.index
  }

  /** A commit that has passed the manifest finds its root in the index. */
  ghost predicate KnowsRoot(isRoot: Digest -> bool, c: Config) {
    && RootsIndexed(isRoot, c.disk)
    && (c.body.RecordDocument? && c.body.op.Commit? ==> c.body.op.src.root in c.disk.index)
    && (c.body.Done? && c.body.outcome.Committed? ==> c.body.outcome.document.root in c.disk.index)
  }

  lemma RootStep(codec: Codec, isRoot: Digest -> bool, c: Config, c': Config)
    requires Sound(codec, isRoot, c.disk) && BodyInv(codec, isRoot, c) && KnowsRoot(isRoot, c) && Step(codec, c, c')
    ensures KnowsRoot(isRoot, c')
  {
  }

  /** P holds when a body begins and is kept by every step. The body begins under the lock, so
      nothing else moves the disk meanwhile; know is what it says of the disk alone. */
  ghost predicate Keeps(codec: Codec, isRoot: Digest -> bool, know: Config -> bool, onDisk: Disk -> bool) {
    && (forall op, disk {:trigger Config(Begin(op), disk, disk.index)} ::
          onDisk(disk) ==> know(Config(Begin(op), disk, disk.index)))
    && (forall c: Config, c': Config {:trigger Step(codec, c, c')} ::
          && Sound(codec, isRoot, c.disk) && BodyInv(codec, isRoot, c)
          && onDisk(c.disk) && know(c) && Step(codec, c, c') ==>
            onDisk(c'.disk) && know(c'))
  }

  /** Every running body has its knowledge. */
  ghost predicate Held(know: Config -> bool, onDisk: Disk -> bool, s: System) {
    && onDisk(s.disk)
    && forall t :: At(s, t).Running? && t.handle in s.oci ==> know(Config(At(s, t).body, s.disk, s.oci[t.handle]))
  }

  lemma RefreshHolds(codec: Codec, isRoot: Digest -> bool, know: Config -> bool, onDisk: Disk -> bool,
                     s: System, t: Thread, s': System)
    requires Keeps(codec, isRoot, know, onDisk)
    requires Inv(codec, isRoot, s) && Held(know, onDisk, s) && Next(codec, isRoot, s, Refresh(t), s')
    ensures Held(know, onDisk, s')
  {
    forall u | At(s', u).Running? && u.handle in s'.oci
      ensures know(Config(At(s', u).body, s'.disk, s'.oci[u.handle]))
    {
      if u != t { OnlyRunner(s, t, u); }
    }
  }

  lemma WorkHolds(codec: Codec, isRoot: Digest -> bool, know: Config -> bool, onDisk: Disk -> bool,
                  s: System, t: Thread, s': System)
    requires Keeps(codec, isRoot, know, onDisk)
    requires Inv(codec, isRoot, s) && Held(know, onDisk, s) && Next(codec, isRoot, s, Work(t), s')
    ensures Held(know, onDisk, s')
  {
    var c := Config(At(s, t).body, s.disk, s.oci[t.handle]);
    var c' :| Step(codec, c, c')
              && s' == Moved(s, t, Running(c'.body)).(disk := c'.disk, oci := s.oci[t.handle := c'.oci]);
    forall u | At(s', u).Running? ensures u == t {
      if u != t {
        assert At(s', u) == At(s, u);
        OnlyRunner(s, t, u);
      }
    }
    assert c' == Config(c'.body, s'.disk, s'.oci[t.handle]);
  }

  /** The other events let no body begin or move. */
  lemma QuietHolds(codec: Codec, isRoot: Digest -> bool, know: Config -> bool, onDisk: Disk -> bool,
                   s: System, e: Event, s': System)
    requires Held(know, onDisk, s) && Next(codec, isRoot, s, e, s') && !e.Work? && !e.Refresh?
    ensures Held(know, onDisk, s')
  {
    assert s'.disk == s.disk && s'.oci == s.oci;
    forall u | At(s', u).Running? ensures At(s', u) == At(s, u) {
      if e.Crash? {
        assert u in s.pcs;
      } else {
        assert u != e.t;
      }
    }
  }

  lemma NextHolds(codec: Codec, isRoot: Digest -> bool, know: Config -> bool, onDisk: Disk -> bool,
                  s: System, e: Event, s': System)
    requires Keeps(codec, isRoot, know, onDisk)
    requires Inv(codec, isRoot, s) && Held(know, onDisk, s) && Next(codec, isRoot, s, e, s')
    ensures Held(know, onDisk, s')
  {
    match e
    case Work(t) => WorkHolds(codec, isRoot, know, onDisk, s, t, s');
    case Refresh(t) => RefreshHolds(codec, isRoot, know, onDisk, s, t, s');
    case _ => QuietHolds(codec, isRoot, know, onDisk, s, e, s');
  }

  lemma {:induction false} RunHolds(codec: Codec, isRoot: Digest -> bool, know: Config -> bool, onDisk: Disk -> bool,
                                    states: seq<System>, events: seq<Event>, n: nat)
    requires Keeps(codec, isRoot, know, onDisk)
    requires IsRun(codec, isRoot, states, events) && n < |states| && onDisk(states[0].disk)
    ensures Held(know, onDisk, states[n])
  {
    if n == 0 {
      forall t ensures At(states[0], t) == Idle {}
    } else {
      RunHolds(codec, isRoot, know, onDisk, states, events, n - 1);
      RunInv(codec, isRoot, states, events, n - 1);
      assert NextAt(codec, isRoot, states, events, n - 1);
      NextHolds(codec, isRoot, know, onDisk, states[n - 1], events[n - 1], states[n]);
    }
  }

  ghost function AnyDisk(): Disk -> bool {
    (disk: Disk) => true
  }

  ghost function AboutCatalog(codec: Codec): Config -> bool {
    (c: Config) => KnowsCatalog(codec, c)
  }

  ghost function AboutRoot(isRoot: Digest -> bool): Config -> bool {
    (c: Config) => KnowsRoot(isRoot, c)
  }

  ghost function RootsOn(isRoot: Digest -> bool): Disk -> bool {
    (disk: Disk) => RootsIndexed(isRoot, disk)
  }

  lemma CatalogKept(codec: Codec, isRoot: Digest -> bool)
    ensures Keeps(codec, isRoot, AboutCatalog(codec), AnyDisk())
  {
    forall c: Config, c': Config | BodyInv(codec, isRoot, c) && KnowsCatalog(codec, c) && Step(codec, c, c')
      ensures KnowsCatalog(codec, c')
    {
      CatalogStep(codec, isRoot, c, c');
    }
  }

  lemma RootKept(codec: Codec, isRoot: Digest -> bool)
    ensures Keeps(codec, isRoot, AboutRoot(isRoot), RootsOn(isRoot))
  {
    forall c: Config, c': Config
      | Sound(codec, isRoot, c.disk) && BodyInv(codec, isRoot, c) && KnowsRoot(isRoot, c) && Step(codec, c, c')
      ensures KnowsRoot(isRoot, c')
    {
      RootStep(codec, isRoot, c, c');
    }
  }

  /** What goroutine t works on in state s. */
  ghost function Working(s: System, t: Thread): Config
    requires At(s, t).Running? && t.handle in s.oci
  {
    Config(At(s, t).body, s.disk, s.oci[t.handle])
  }

  lemma KnownCatalog(codec: Codec, isRoot: Digest -> bool, states: seq<System>, events: seq<Event>, n: nat, t: Thread)
    requires IsRun(codec, isRoot, states, events) && n < |states| && At(states[n], t).Running?
    ensures t.handle in states[n].oci && KnowsCatalog(codec, Working(states[n], t))
    ensures BodyInv(codec, isRoot, Working(states[n], t))
  {
    CatalogKept(codec, isRoot);
    RunHolds(codec, isRoot, AboutCatalog(codec), AnyDisk(), states, events, n);
    RunInv(codec, isRoot, states, events, n);
    assert AboutCatalog(codec)(Working(states[n], t));
  }

  /** The body is about to forget the record of d: it removes that root, or repairs the catalog
      of a store in which d is no valid root. */
  ghost predicate Drops(codec: Codec, c: Config, d: Digest) {
    || (c.body.ForgetRecord? && c.body.op == Remove(d))
    || (c.body.SaveRepaired? && c.body.op == Verify(true)
        && !(d in c.disk.index && ValidRoot(codec, c.disk.blobs, d)))
  }

  /** A step that changes the catalog is the end of a commit, a removal or a repair. */
  lemma CatalogWriters(codec: Codec, isRoot: Digest -> bool, c: Config, c': Config)
    requires BodyInv(codec, isRoot, c) && KnowsCatalog(codec, c)
    requires Step(codec, c, c') && c'.disk.catalog != c.disk.catalog
    ensures CatalogForVerify(c.disk.catalog, true).Some?
    ensures c.body.RecordDocument? || c.body.ForgetRecord? || (c.body.SaveRepaired? && c.body.op == Verify(true))
    ensures forall d :: d in Records(c.disk.catalog) && d !in Records(c'.disk.catalog) ==> Drops(codec, c, d)
  {
  }

  lemma CatalogMoves(codec: Codec, isRoot: Digest -> bool, states: seq<System>, events: seq<Event>, n: nat)
    requires IsRun(codec, isRoot, states, events) && n < |events|
    requires states[n + 1].disk.catalog != states[n].disk.catalog
    ensures events[n].Work? && At(states[n], events[n].t).Running? && events[n].t.handle in states[n].oci
    ensures CatalogForVerify(states[n].disk.catalog, true).Some?
    ensures forall d :: d in Records(states[n].disk.catalog) && d !in Records(states[n + 1].disk.catalog) ==>
              Drops(codec, Working(states[n], events[n].t), d)
  {
    var s, e, s' := states[n], events[n], states[n + 1];
    assert NextAt(codec, isRoot, states, events, n);
    assert e.Work?;
    KnownCatalog(codec, isRoot, states, events, n, e.t);
    var c := Working(s, e.t);
    var c' :| Step(codec, c, c')
              && s' == Moved(s, e.t, Running(c'.body)).(disk := c'.disk, oci := s.oci[e.t.handle := c'.oci]);
    CatalogWriters(codec, isRoot, c, c');
  }

  /** In every run a record leaves the catalog only when its root is removed, or when a repair
      finds that it belongs to no valid indexed root. */
  lemma RecordsAreConserved(codec: Codec, isRoot: Digest -> bool, states: seq<System>, events: seq<Event>,
                            n: nat, d: Digest)
    requires IsRun(codec, isRoot, states, events) && n < |events|
    requires d in Records(states[n].disk.catalog) && d !in Records(states[n + 1].disk.catalog)
    ensures events[n].Work? && At(states[n], events[n].t).Running? && events[n].t.handle in states[n].oci
    ensures Drops(codec, Working(states[n], events[n].t), d)
  {
    CatalogMoves(codec, isRoot, states, events, n);
  }

  /** No run ever rewrites a catalog that cannot be read or that a newer version wrote. */
  lemma {:induction false} ForeignCatalogSurvives(codec: Codec, isRoot: Digest -> bool, states: seq<System>,
                                                  events: seq<Event>, n: nat, m: nat)
    requires IsRun(codec, isRoot, states, events) && n <= m < |states|
    requires var file := states[n].disk.catalog;
             file.Unreadable? || (file.Catalog? && file.version > CATALOG_VERSION)
    ensures states[m].disk.catalog == states[n].disk.catalog
  {
    if n < m {
      ForeignCatalogSurvives(codec, isRoot, states, events, n, m - 1);
      StoreTheory.RepairableExactly(states[n].disk.catalog);
      if states[m].disk.catalog != states[m - 1].disk.catalog { CatalogMoves(codec, isRoot, states, events, m - 1); }
    }
  }

  /** In every state of every run that starts with all roots indexed: a commit that has passed
      its manifest finds its root in the index, and one that reports success finds there also
      the record it reports. */
  lemma CommitsAreKept(codec: Codec, isRoot: Digest -> bool, states: seq<System>, events: seq<Event>, n: nat)
    requires IsRun(codec, isRoot, states, events) && n < |states| && RootsIndexed(isRoot, states[0].disk)
    ensures RootsIndexed(isRoot, states[n].disk)
    ensures forall t :: At(states[n], t).Running? && At(states[n], t).body.RecordDocument? ==>
              At(states[n], t).body.op.Commit? && At(states[n], t).body.op.src.root in states[n].disk.index
    ensures forall t :: At(states[n], t).Running? && At(states[n], t).body.Done?
                        && At(states[n], t).body.outcome.Committed? ==>
              var document := At(states[n], t).body.outcome.document;
              && document.root in states[n].disk.index
              && document.root in Records(states[n].disk.catalog)
              && Records(states[n].disk.catalog)[document.root] == document.record
  {
    RootKept(codec, isRoot);
    RunHolds(codec, isRoot, AboutRoot(isRoot), RootsOn(isRoot), states, events, n);
    forall t | At(states[n], t).Running?
      ensures t.handle in states[n].oci && KnowsRoot(isRoot, Working(states[n], t))
      ensures KnowsCatalog(codec, Working(states[n], t)) && BodyInv(codec, isRoot, Working(states[n], t))
    {
      KnownCatalog(codec, isRoot, states, events, n, t);
      assert AboutRoot(isRoot)(Working(states[n], t));
    }
  }
}
