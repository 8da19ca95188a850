/** Every step of every body keeps the store sound. */
module StoreSafety {
  import opened Prelude
  import opened StoreDisk
  import opened Metadata
  import opened StoreBody

  lemma PushKeeps(codec: Codec, isRoot: Digest -> bool, disk: Disk, d: Digest, content: Bytes)
    requires Sound(codec, isRoot, disk) && CanPush(codec, disk, d, content)
    ensures Sound(codec, isRoot, PushIfMissing(disk, d, content))
    ensures d in PushIfMissing(disk, d, content).blobs
    ensures disk.blobs.Keys <= PushIfMissing(disk, d, content).blobs.Keys
  {
    if d !in disk.blobs {
      forall r | r in disk.index
        ensures Complete(codec, disk.blobs[d := content], r)
        ensures ReadManifest(codec, disk.blobs[d := content], r) == ReadManifest(codec, disk.blobs, r)
      {
        assert Complete(codec, disk.blobs, r);
        AddingKeepsComplete(codec, disk.blobs, d, content, r);
      }
    }
  }

  lemma PushRootKeeps(codec: Codec, isRoot: Digest -> bool, disk: Disk, op: Op)
    requires Sound(codec, isRoot, disk) && op.Commit? && Admissible(codec, isRoot, op)
    requires Refs(op.src.manifest) <= disk.blobs.Keys && op.src.root !in disk.blobs
    ensures Sound(codec, isRoot, PushManifest(disk, disk.index, op.src.root, op.src.rootBytes))
  {
    var root, after := op.src.root, PushManifest(disk, disk.index, op.src.root, op.src.rootBytes);
    assert ReadManifest(codec, after.blobs, root) == Some(op.src.manifest);
    forall r | r in after.index
      ensures Complete(codec, after.blobs, r)
      ensures r != root ==> ReadManifest(codec, after.blobs, r) == ReadManifest(codec, disk.blobs, r)
      ensures r != root ==> r in disk.index
    {
      if r != root {
        assert Complete(codec, disk.blobs, r);
        AddingKeepsComplete(codec, disk.blobs, root, op.src.rootBytes, r);
      }
    }
  }

  /** Dropping a blob that no remaining root needs. */
  lemma DropKeeps(codec: Codec, isRoot: Digest -> bool, disk: Disk, index: seq<Digest>, d: Digest)
    requires Sound(codec, isRoot, disk)
    requires forall r :: r in index ==>
               r in disk.index && r != d && d !in Refs(ReadManifest(codec, disk.blobs, r).value)
    ensures Sound(codec, isRoot, disk.(blobs := disk.blobs - {d}, index := index))
    ensures forall r :: r in index ==>
              ReadManifest(codec, disk.blobs - {d}, r) == ReadManifest(codec, disk.blobs, r)
  {
    forall r | r in index
      ensures Complete(codec, disk.blobs - {d}, r)
      ensures ReadManifest(codec, disk.blobs - {d}, r) == ReadManifest(codec, disk.blobs, r)
    {
      assert Complete(codec, disk.blobs, r);
      DroppingKeepsComplete(codec, disk.blobs, d, r);
    }
  }

  lemma ComponentStepKeeps(codec: Codec, isRoot: Digest -> bool, c: Config, c': Config)
    requires Sound(codec, isRoot, c.disk) && BodyInv(codec, isRoot, c)
    requires c.body.PushComponent? && CommitStep(codec, c, c')
    ensures Sound(codec, isRoot, c'.disk) && BodyInv(codec, isRoot, c')
  {
    var op, next := c.body.op, c.body.next;
    if next < |op.src.components| {
      var d := op.src.components[next].descriptor.digest;
      PushKeeps(codec, isRoot, c.disk, d, ComponentContent(op.src, next));
      assert ComponentDigests(op.src.components, next + 1) == ComponentDigests(op.src.components, next) + {d};
    } else {
      ValidSourceCoversManifest(codec, op.src);
    }
  }

  lemma CommitStepKeeps(codec: Codec, isRoot: Digest -> bool, c: Config, c': Config)
    requires Sound(codec, isRoot, c.disk) && BodyInv(codec, isRoot, c) && CommitStep(codec, c, c')
    ensures Sound(codec, isRoot, c'.disk) && BodyInv(codec, isRoot, c')
  {
    match c.body
    case PushConfig(op) =>
      PushKeeps(codec, isRoot, c.disk, op.src.manifest.config, op.src.configBytes);
      assert ComponentDigests(op.src.components, 0) == {};
    case PushComponent(_, _) => ComponentStepKeeps(codec, isRoot, c, c');
    case PushRoot(op) =>
      if op.src.root !in c.disk.blobs { PushRootKeeps(codec, isRoot, c.disk, op); }
    case RecordDocument(op) =>
  }

  lemma RemoveStepKeeps(codec: Codec, isRoot: Digest -> bool, c: Config, c': Config)
    requires Sound(codec, isRoot, c.disk) && BodyInv(codec, isRoot, c) && RemoveStep(c, c')
    ensures Sound(codec, isRoot, c'.disk) && BodyInv(codec, isRoot, c')
  {
    if c.body.DeleteRoot? {
      var root := c.body.op.root;
      forall r | r in Without(c.disk.index, root)
        ensures r in c.disk.index && r != root && root !in Refs(ReadManifest(codec, c.disk.blobs, r).value)
      {
        assert Complete(codec, c.disk.blobs, r);
        assert isRoot(root);
      }
      DropKeeps(codec, isRoot, c.disk, Without(c.disk.index, root), root);
    }
  }

  lemma PruneStepKeeps(codec: Codec, isRoot: Digest -> bool, c: Config, c': Config)
    requires Sound(codec, isRoot, c.disk) && BodyInv(codec, isRoot, c) && PruneStep(codec, c, c')
    ensures Sound(codec, isRoot, c'.disk) && BodyInv(codec, isRoot, c')
  {
    match c.body
    case ReadIndex(op) =>
    case MarkRoots(op, roots, next, reachable) =>
      if next == |roots| {
        forall r | r in c.disk.index
          ensures ReadManifest(codec, c.disk.blobs, r).Some?
                  && Reach(r, ReadManifest(codec, c.disk.blobs, r).value) <= reachable
        {
          var i :| 0 <= i < |roots| && roots[i] == r;
        }
      }
    case Measure(op, reachable) =>
    case Sweep(op, reachable, todo, count, bytes) =>
      if todo != [] && todo[0] !in reachable {
        DropKeeps(codec, isRoot, c.disk, c.disk.index, todo[0]);
      }
  }

  lemma VerifyStepKeeps(codec: Codec, isRoot: Digest -> bool, c: Config, c': Config)
    requires Sound(codec, isRoot, c.disk) && BodyInv(codec, isRoot, c) && VerifyStep(codec, c, c')
    ensures Sound(codec, isRoot, c'.disk) && BodyInv(codec, isRoot, c')
  {
    assert c'.disk.blobs == c.disk.blobs && c'.disk.index == c.disk.index && c'.oci == c.oci;
  }

  /** Every step of every body, including failing, keeps the store sound and the body's own
      knowledge of it true. */
  lemma StepKeeps(codec: Codec, isRoot: Digest -> bool, c: Config, c': Config)
    requires Sound(codec, isRoot, c.disk) && BodyInv(codec, isRoot, c) && Step(codec, c, c')
    ensures Sound(codec, isRoot, c'.disk) && BodyInv(codec, isRoot, c')
  {
    if c' == c.(body := Failed) {
    } else if CommitStep(codec, c, c') {
      CommitStepKeeps(codec, isRoot, c, c');
    } else if RemoveStep(c, c') {
      RemoveStepKeeps(codec, isRoot, c, c');
    } else if PruneStep(codec, c, c') {
      PruneStepKeeps(codec, isRoot, c, c');
    } else {
      VerifyStepKeeps(codec, isRoot, c, c');
    }
  }

  /** Only deleting a root takes it out of the index, and only sweeping or deleting takes a
      blob away; in particular no step rewrites a blob that is present. */
  lemma StepConserves(codec: Codec, c: Config, c': Config)
    requires c.oci == c.disk.index && Step(codec, c, c')
    ensures forall r :: r in c.disk.index && r !in c'.disk.index ==> c.body.DeleteRoot? && r == c.body.op.root
    ensures forall r :: r in c'.disk.index && r !in c.disk.index ==> c.body.PushRoot? && r == c.body.op.src.root
    ensures forall d :: d in c.disk.blobs && d in c'.disk.blobs ==> c'.disk.blobs[d] == c.disk.blobs[d]
    ensures forall d :: d in c.disk.blobs && d !in c'.disk.blobs ==> c.body.DeleteRoot? || c.body.Sweep?
  {
  }
}
