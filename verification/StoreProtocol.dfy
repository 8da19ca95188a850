/** Any number of goroutines, handles and processes on one store (store/store.go): the
    per-handle channel token, the cross-process file lock, and the bodies that run under both. */
module StoreProtocol {
  import opened Prelude
  import opened StoreDisk
  import opened Metadata
  import opened StoreBody
  import opened StoreSafety

  datatype Handle = Handle(process: nat, id: nat)

  datatype Thread = Thread(handle: Handle, id: nat)

  /** Where a goroutine stands in withCatalogLock. */
  datatype Pc =
    | Idle
    | WaitToken(op: Op)
    | WaitFileLock(op: Op)
    | Locked(op: Op)
    | Running(body: Body)
    | FileUnlock
    | TokenRelease

  /** The disk, the owner of the file lock, the handles whose token is taken, each handle's own
      copy of the root index, and the goroutines that are not idle. */
  datatype System = System(
    disk: Disk, fileLock: Option<Handle>, tokens: set<Handle>,
    oci: map<Handle, seq<Digest>>, pcs: map<Thread, Pc>)

  function At(s: System, t: Thread): Pc {
    if t in s.pcs then s.pcs[t] else Idle
  }

  predicate HasToken(pc: Pc) {
    pc.WaitFileLock? || pc.Locked? || pc.Running? || pc.FileUnlock? || pc.TokenRelease?
  }

  predicate Critical(pc: Pc) {
    pc.Locked? || pc.Running? || pc.FileUnlock?
  }

  datatype Event =
    | Call(t: Thread, op: Op)
    | AbandonToken(t: Thread)
    | TakeToken(t: Thread)
    | FileLockFails(t: Thread)
    | TakeFileLock(t: Thread)
    | Refuse(t: Thread)
    | Refresh(t: Thread)
    | Work(t: Thread)
    | Return(t: Thread)
    | UnlockFile(t: Thread)
    | ReleaseToken(t: Thread)
    | Crash(process: nat)

  function Moved(s: System, t: Thread, pc: Pc): System {
    s.(pcs := s.pcs[t := pc])
  }

  /** TryLock of the file lock succeeds when it is free, and also when this very handle holds it
      already. */
  predicate FileLockAvailable(s: System, h: Handle) {
    s.fileLock == None || s.fileLock == Some(h)
  }

  /** Only validated commits of documents whose root is nobody's content are called. */
  ghost predicate Next(codec: Codec, isRoot: Digest -> bool, s: System, e: Event, s': System) {
    match e
    case Call(t, op) => At(s, t) == Idle && Admissible(codec, isRoot, op) && s' == Moved(s, t, WaitToken(op))
    case AbandonToken(t) => At(s, t).WaitToken? && s' == Moved(s, t, Idle)
    case TakeToken(t) =>
      && At(s, t).WaitToken? && t.handle !in s.tokens
      && s' == Moved(s, t, WaitFileLock(At(s, t).op)).(tokens := s.tokens + {t.handle})
    case FileLockFails(t) => At(s, t).WaitFileLock? && s' == Moved(s, t, TokenRelease)
    case TakeFileLock(t) =>
      && At(s, t).WaitFileLock? && FileLockAvailable(s, t.handle)
      && s' == Moved(s, t, Locked(At(s, t).op)).(fileLock := Some(t.handle))
    case Refuse(t) => At(s, t).Locked? && s' == Moved(s, t, FileUnlock)
    case Refresh(t) =>
      && At(s, t).Locked?
      && s' == Moved(s, t, Running(Begin(At(s, t).op))).(oci := s.oci[t.handle := s.disk.index])
    case Work(t) =>
      && At(s, t).Running? && t.handle in s.oci
      && exists c' :: Step(codec, Config(At(s, t).body, s.disk, s.oci[t.handle]), c')
                      && s' == Moved(s, t, Running(c'.body)).(disk := c'.disk, oci := s.oci[t.handle := c'.oci])
    case Return(t) =>
      && At(s, t).Running? && (At(s, t).body.Done? || At(s, t).body.Failed?)
      && s' == Moved(s, t, FileUnlock)
    case UnlockFile(t) =>
      && At(s, t).FileUnlock?
      && s' == Moved(s, t, TokenRelease).(fileLock := if s.fileLock == Some(t.handle) then None else s.fileLock)
    case ReleaseToken(t) =>
      && At(s, t).TokenRelease?
      && s' == Moved(s, t, Idle).(tokens := s.tokens - {t.handle})
    case Crash(p) =>
      s' == s.(
        pcs := (map t | t in s.pcs && t.handle.process != p :: s.pcs[t]),
        tokens := (set h | h in s.tokens && h.process != p),
        fileLock := if s.fileLock.Some? && s.fileLock.value.process == p then None else s.fileLock)
  }

  /** Each taken token belongs to exactly one goroutine of its handle, and the file lock to a
      handle one of whose goroutines is inside. */
  ghost predicate LockInv(s: System) {
    && (forall t :: HasToken(At(s, t)) ==> t.handle in s.tokens)
    && (forall t: Thread, u: Thread :: HasToken(At(s, t)) && HasToken(At(s, u)) && t.handle == u.handle ==> t == u)
    && (forall h :: h in s.tokens ==> exists t: Thread :: t.handle == h && HasToken(At(s, t)))
    && (forall t :: Critical(At(s, t)) ==> s.fileLock == Some(t.handle))
    && (forall h :: s.fileLock == Some(h) ==> exists t: Thread :: t.handle == h && Critical(At(s, t)))
  }

  /** What the running body knows about the disk. */
  ghost predicate WorkInv(codec: Codec, isRoot: Digest -> bool, s: System) {
    && (forall t :: At(s, t).Running? ==>
          t.handle in s.oci && BodyInv(codec, isRoot, Config(At(s, t).body, s.disk, s.oci[t.handle])))
    && (forall t :: At(s, t).WaitToken? || At(s, t).WaitFileLock? || At(s, t).Locked? ==>
          Admissible(codec, isRoot, At(s, t).op))
  }

  ghost predicate Inv(codec: Codec, isRoot: Digest -> bool, s: System) {
    Sound(codec, isRoot, s.disk) && LockInv(s) && WorkInv(codec, isRoot, s)
  }

  /** At most one goroutine over all handles and processes is inside the locked region. */
  lemma MutualExclusion(s: System, t: Thread, u: Thread)
    requires LockInv(s) && Critical(At(s, t)) && Critical(At(s, u))
    ensures t == u
  {
    assert HasToken(At(s, t)) && HasToken(At(s, u));
  }

  lemma OnlyRunner(s: System, t: Thread, u: Thread)
    requires LockInv(s)
    ensures Critical(At(s, t)) && Critical(At(s, u)) ==> t == u
  {
    if Critical(At(s, t)) && Critical(At(s, u)) { MutualExclusion(s, t, u); }
  }

  /** When every goroutine is idle, both locks have been given back, whatever way each call
      ended. */
  lemma LocksGivenBack(s: System)
    requires LockInv(s) && forall t :: At(s, t).Idle? || At(s, t).WaitToken?
    ensures s.tokens == {} && s.fileLock == None
  {
    forall t ensures !HasToken(At(s, t)) && !Critical(At(s, t)) {
      assert At(s, t).Idle? || At(s, t).WaitToken?;
    }
  }

  /** A goroutine that moves within the same pair of lock-holding classes keeps the locks right. */
  lemma MoveKeepsLocks(s: System, t: Thread, pc: Pc, s': System)
    requires LockInv(s) && s'.pcs == s.pcs[t := pc]
    requires HasToken(pc) == HasToken(At(s, t)) && Critical(pc) == Critical(At(s, t))
    requires s'.tokens == s.tokens && s'.fileLock == s.fileLock
    ensures LockInv(s')
  {
    forall u ensures HasToken(At(s', u)) == HasToken(At(s, u)) && Critical(At(s', u)) == Critical(At(s, u)) {}
    forall h | h in s'.tokens ensures exists u: Thread :: u.handle == h && HasToken(At(s', u)) {
      var u: Thread :| u.handle == h && HasToken(At(s, u));
      assert HasToken(At(s', u));
    }
    forall h | s'.fileLock == Some(h) ensures exists u: Thread :: u.handle == h && Critical(At(s', u)) {
      var u: Thread :| u.handle == h && Critical(At(s, u));
      assert Critical(At(s', u));
    }
  }

  lemma TakeTokenKeepsLocks(s: System, t: Thread, s': System)
    requires LockInv(s) && At(s, t).WaitToken? && t.handle !in s.tokens
    requires s' == Moved(s, t, WaitFileLock(At(s, t).op)).(tokens := s.tokens + {t.handle})
    ensures LockInv(s')
  {
    forall u | u != t ensures At(s', u) == At(s, u) {}
    assert HasToken(At(s', t));
    forall h | h in s'.tokens ensures exists u: Thread :: u.handle == h && HasToken(At(s', u)) {
      if h != t.handle {
        var u: Thread :| u.handle == h && HasToken(At(s, u));
        assert HasToken(At(s', u));
      }
    }
    forall h | s'.fileLock == Some(h) ensures exists u: Thread :: u.handle == h && Critical(At(s', u)) {
      var u: Thread :| u.handle == h && Critical(At(s, u));
      assert Critical(At(s', u));
    }
  }

  lemma TakeFileLockKeepsLocks(s: System, t: Thread, s': System)
    requires LockInv(s) && At(s, t).WaitFileLock? && FileLockAvailable(s, t.handle)
    requires s' == Moved(s, t, Locked(At(s, t).op)).(fileLock := Some(t.handle))
    ensures LockInv(s')
  {
    // The re-entrant case cannot arise: a goroutine inside would hold this handle's token.
    forall u | u != t ensures At(s', u) == At(s, u) {}
    assert HasToken(At(s, t));
    forall u | Critical(At(s', u)) ensures s'.fileLock == Some(u.handle) {
      if u != t {
        assert Critical(At(s, u)) && HasToken(At(s, u));
      }
    }
    forall h | h in s'.tokens ensures exists u: Thread :: u.handle == h && HasToken(At(s', u)) {
      var u: Thread :| u.handle == h && HasToken(At(s, u));
      assert HasToken(At(s', u));
    }
    assert Critical(At(s', t));
  }

  lemma UnlockFileKeepsLocks(s: System, t: Thread, s': System)
    requires LockInv(s) && At(s, t).FileUnlock?
    requires s' == Moved(s, t, TokenRelease).(fileLock := if s.fileLock == Some(t.handle) then None else s.fileLock)
    ensures LockInv(s')
  {
    forall u | u != t ensures At(s', u) == At(s, u) {}
    assert Critical(At(s, t));
    forall u | Critical(At(s', u)) ensures false {
      MutualExclusion(s, t, u);
    }
    forall h | h in s'.tokens ensures exists u: Thread :: u.handle == h && HasToken(At(s', u)) {
      var u: Thread :| u.handle == h && HasToken(At(s, u));
      assert HasToken(At(s', u));
    }
  }

  lemma ReleaseTokenKeepsLocks(s: System, t: Thread, s': System)
    requires LockInv(s) && At(s, t).TokenRelease?
    requires s' == Moved(s, t, Idle).(tokens := s.tokens - {t.handle})
    ensures LockInv(s')
  {
    forall u | u != t ensures At(s', u) == At(s, u) {}
    assert HasToken(At(s, t));
    forall u | HasToken(At(s', u)) ensures u.handle in s'.tokens {
      assert HasToken(At(s, u));
    }
    forall h | h in s'.tokens ensures exists u: Thread :: u.handle == h && HasToken(At(s', u)) {
      var u: Thread :| u.handle == h && HasToken(At(s, u));
      assert HasToken(At(s', u));
    }
    forall h | s'.fileLock == Some(h) ensures exists u: Thread :: u.handle == h && Critical(At(s', u)) {
      var u: Thread :| u.handle == h && Critical(At(s, u));
      assert Critical(At(s', u));
    }
  }

  lemma CrashKeepsLocks(s: System, p: nat, s': System)
    requires LockInv(s)
    requires s'.pcs == map t | t in s.pcs && t.handle.process != p :: s.pcs[t]
    requires s'.tokens == set h | h in s.tokens && h.process != p
    requires s'.fileLock == if s.fileLock.Some? && s.fileLock.value.process == p then None else s.fileLock
    ensures LockInv(s')
  {
    forall u ensures At(s', u) == if u.handle.process == p then Idle else At(s, u) {}
    forall h | h in s'.tokens ensures exists u: Thread :: u.handle == h && HasToken(At(s', u)) {
      var u: Thread :| u.handle == h && HasToken(At(s, u));
      assert HasToken(At(s', u));
    }
    forall h | s'.fileLock == Some(h) ensures exists u: Thread :: u.handle == h && Critical(At(s', u)) {
      var u: Thread :| u.handle == h && Critical(At(s, u));
      assert Critical(At(s', u));
    }
  }

  lemma NextKeepsLocks(codec: Codec, isRoot: Digest -> bool, s: System, e: Event, s': System)
    requires LockInv(s) && Next(codec, isRoot, s, e, s')
    ensures LockInv(s')
  {
    match e
    case Call(t, op) => MoveKeepsLocks(s, t, WaitToken(op), s');
    case AbandonToken(t) => MoveKeepsLocks(s, t, Idle, s');
    case TakeToken(t) => TakeTokenKeepsLocks(s, t, s');
    case FileLockFails(t) => MoveKeepsLocks(s, t, TokenRelease, s');
    case TakeFileLock(t) => TakeFileLockKeepsLocks(s, t, s');
    case Refuse(t) => MoveKeepsLocks(s, t, FileUnlock, s');
    case Refresh(t) => MoveKeepsLocks(s, t, At(s', t), s');
    case Work(t) => MoveKeepsLocks(s, t, At(s', t), s');
    case Return(t) => MoveKeepsLocks(s, t, FileUnlock, s');
    case UnlockFile(t) => UnlockFileKeepsLocks(s, t, s');
    case ReleaseToken(t) => ReleaseTokenKeepsLocks(s, t, s');
    case Crash(p) => CrashKeepsLocks(s, p, s');
  }

  /** A body's step keeps everything true, because nobody else is inside to disturb it or to be
      disturbed. */
  lemma WorkKeeps(codec: Codec, isRoot: Digest -> bool, s: System, t: Thread, s': System)
    requires Inv(codec, isRoot, s) && Next(codec, isRoot, s, Work(t), s')
    ensures Sound(codec, isRoot, s'.disk) && WorkInv(codec, isRoot, s')
  {
    var c := Config(At(s, t).body, s.disk, s.oci[t.handle]);
    var c' :| Step(codec, c, c')
              && s' == Moved(s, t, Running(c'.body)).(disk := c'.disk, oci := s.oci[t.handle := c'.oci]);
    StepKeeps(codec, isRoot, c, c');
    forall u | u != t ensures At(s', u) == At(s, u) && !At(s', u).Running? {
      OnlyRunner(s, t, u);
    }
    forall u | At(s', u).WaitToken? || At(s', u).WaitFileLock? || At(s', u).Locked?
      ensures Admissible(codec, isRoot, At(s', u).op)
    {
      assert At(s', u) == At(s, u);
    }
  }

  lemma NextKeepsWork(codec: Codec, isRoot: Digest -> bool, s: System, e: Event, s': System)
    requires Inv(codec, isRoot, s) && Next(codec, isRoot, s, e, s') && !e.Work? && !e.Refresh? && !e.Crash?
    ensures Sound(codec, isRoot, s'.disk) && WorkInv(codec, isRoot, s')
  {
    var t := e.t;
    assert s'.disk == s.disk && s'.oci == s.oci;
    forall u | u != t ensures At(s', u) == At(s, u) {}
    assert !At(s', t).Running?;
  }

  lemma RefreshKeepsWork(codec: Codec, isRoot: Digest -> bool, s: System, t: Thread, s': System)
    requires Inv(codec, isRoot, s) && Next(codec, isRoot, s, Refresh(t), s')
    ensures Sound(codec, isRoot, s'.disk) && WorkInv(codec, isRoot, s')
  {
    forall u | u != t ensures At(s', u) == At(s, u) {}
    forall u | At(s', u).Running?
      ensures u.handle in s'.oci && BodyInv(codec, isRoot, Config(At(s', u).body, s'.disk, s'.oci[u.handle]))
    {
      if u != t { MutualExclusion(s, t, u); }
    }
  }

  lemma CrashKeepsWork(codec: Codec, isRoot: Digest -> bool, s: System, p: nat, s': System)
    requires Inv(codec, isRoot, s) && Next(codec, isRoot, s, Crash(p), s')
    ensures Sound(codec, isRoot, s'.disk) && WorkInv(codec, isRoot, s')
  {
    forall u ensures At(s', u) == if u.handle.process == p then Idle else At(s, u) {}
  }

  lemma NextKeepsInv(codec: Codec, isRoot: Digest -> bool, s: System, e: Event, s': System)
    requires Inv(codec, isRoot, s) && Next(codec, isRoot, s, e, s')
    ensures Inv(codec, isRoot, s')
  {
    NextKeepsLocks(codec, isRoot, s, e, s');
    match e
    case Work(t) => WorkKeeps(codec, isRoot, s, t, s');
    case Refresh(t) => RefreshKeepsWork(codec, isRoot, s, t, s');
    case Crash(p) => CrashKeepsWork(codec, isRoot, s, p, s');
    case _ => NextKeepsWork(codec, isRoot, s, e, s');
  }

  ghost predicate NextAt(codec: Codec, isRoot: Digest -> bool, states: seq<System>, events: seq<Event>, i: nat)
    requires i < |events| && |states| == |events| + 1
  {
    Next(codec, isRoot, states[i], events[i], states[i + 1])
  }

  /** A run: states joined by events, from a sound disk on which nothing is running. */
  ghost predicate IsRun(codec: Codec, isRoot: Digest -> bool, states: seq<System>, events: seq<Event>) {
    && |states| == |events| + 1
    && Sound(codec, isRoot, states[0].disk)
    && states[0].pcs == map[] && states[0].tokens == {} && states[0].fileLock == None
    && forall i :: 0 <= i < |events| ==> NextAt(codec, isRoot, states, events, i)
  }

  lemma {:induction false} RunInv(codec: Codec, isRoot: Digest -> bool, states: seq<System>,
                                  events: seq<Event>, n: nat)
    requires IsRun(codec, isRoot, states, events) && n < |states|
    ensures Inv(codec, isRoot, states[n])
  {
    if n == 0 {
      forall t ensures At(states[0], t) == Idle {}
    } else {
      RunInv(codec, isRoot, states, events, n - 1);
      assert NextAt(codec, isRoot, states, events, n - 1);
      NextKeepsInv(codec, isRoot, states[n - 1], events[n - 1], states[n]);
    }
  }

  /** In every state of every run, with any number of goroutines, handles and processes,
      interrupted anywhere: every indexed root has its manifest, its configuration and all its
      components; at most one goroutine is inside; and a commit still finds all the content it
      has pushed so far, so no prune took any. */
  lemma EveryReachableState(codec: Codec, isRoot: Digest -> bool, states: seq<System>,
                            events: seq<Event>, n: nat)
    requires IsRun(codec, isRoot, states, events) && n < |states|
    ensures Closed(codec, states[n].disk) && Addressed(codec, states[n].disk)
    ensures forall t: Thread, u: Thread :: Critical(At(states[n], t)) && Critical(At(states[n], u)) ==> t == u
    ensures forall t :: At(states[n], t).Running? && At(states[n], t).body.PushComponent? ==>
              var (op, next) := (At(states[n], t).body.op, At(states[n], t).body.next);
              && op.Commit? && next <= |op.src.components| && op.src.manifest.config in states[n].disk.blobs
              && ComponentDigests(op.src.components, next) <= states[n].disk.blobs.Keys
    ensures forall t :: At(states[n], t).Running? && At(states[n], t).body.PushRoot? ==>
              At(states[n], t).body.op.Commit?
              && Refs(At(states[n], t).body.op.src.manifest) <= states[n].disk.blobs.Keys
    ensures (forall t :: At(states[n], t) == Idle) ==>
              states[n].tokens == {} && states[n].fileLock == None
  {
    var s := states[n];
    RunInv(codec, isRoot, states, events, n);
    forall t: Thread, u: Thread | Critical(At(s, t)) && Critical(At(s, u)) ensures t == u {
      MutualExclusion(s, t, u);
    }
    if forall t :: At(s, t) == Idle {
      forall t ensures At(s, t).Idle? || At(s, t).WaitToken? { assert At(s, t) == Idle; }
      LocksGivenBack(s);
    }
  }

  /** A root leaves the index only in the step of a Remove of that very root: no commit, prune
      or repair of any other handle ever loses it, although each rewrites the index from its
      own copy. */
  lemma RootsAreConserved(codec: Codec, isRoot: Digest -> bool, s: System, e: Event, s': System, root: Digest)
    requires Inv(codec, isRoot, s) && Next(codec, isRoot, s, e, s')
    requires root in s.disk.index && root !in s'.disk.index
    ensures e.Work? && At(s, e.t).Running? && At(s, e.t).body.DeleteRoot?
    ensures At(s, e.t).body.op == Remove(root)
  {
    if e.Work? {
      var t := e.t;
      var c := Config(At(s, t).body, s.disk, s.oci[t.handle]);
      assert BodyInv(codec, isRoot, c);
      var c' :| Step(codec, c, c')
                && s' == Moved(s, t, Running(c'.body)).(disk := c'.disk, oci := s.oci[t.handle := c'.oci]);
      StepConserves(codec, c, c');
    }
  }

  /** The protocol with the two releases in the other order: the token first. */
  ghost predicate NextReversed(codec: Codec, isRoot: Digest -> bool, s: System, e: Event, s': System) {
    match e
    case FileLockFails(t) =>
      && At(s, t).WaitFileLock?
      && s' == Moved(s, t, Idle).(tokens := s.tokens - {t.handle})
    case Refuse(t) => At(s, t).Locked? && s' == Moved(s, t, TokenRelease)
    case Return(t) =>
      && At(s, t).Running? && (At(s, t).body.Done? || At(s, t).body.Failed?)
      && s' == Moved(s, t, TokenRelease)
    case ReleaseToken(t) =>
      && At(s, t).TokenRelease?
      && s' == Moved(s, t, FileUnlock).(tokens := s.tokens - {t.handle})
    case UnlockFile(t) =>
      && At(s, t).FileUnlock?
      && s' == Moved(s, t, Idle).(fileLock := if s.fileLock == Some(t.handle) then None else s.fileLock)
    case _ => Next(codec, isRoot, s, e, s')
  }

  /** s can be reached from an idle store by events of the reversed protocol. */
  ghost predicate ReachedReversed(codec: Codec, isRoot: Digest -> bool, disk: Disk, events: seq<Event>, s: System)
    decreases |events|
  {
    if events == [] then s == System(disk, None, {}, map[], map[])
    else
      var n := |events| - 1;
      exists before :: ReachedReversed(codec, isRoot, disk, events[..n], before)
                       && NextReversed(codec, isRoot, before, events[n], s)
  }

  lemma OneMoreReversed(codec: Codec, isRoot: Digest -> bool, disk: Disk, events: seq<Event>, s: System,
                        e: Event, s': System)
    requires ReachedReversed(codec, isRoot, disk, events, s) && NextReversed(codec, isRoot, s, e, s')
    ensures ReachedReversed(codec, isRoot, disk, events + [e], s')
  {
    assert (events + [e])[..|events|] == events;
  }

  /** The three events by which an idle goroutine gets inside, when its handle's token is free
      and the file lock is free or held by the handle already. */
  lemma EnterSteps(codec: Codec, isRoot: Digest -> bool, s: System, t: Thread)
    returns (called: System, chosen: System, inside: System)
    requires At(s, t) == Idle && t.handle !in s.tokens && FileLockAvailable(s, t.handle)
    ensures NextReversed(codec, isRoot, s, Call(t, Prune(true)), called)
    ensures NextReversed(codec, isRoot, called, TakeToken(t), chosen)
    ensures NextReversed(codec, isRoot, chosen, TakeFileLock(t), inside)
    ensures inside == System(s.disk, Some(t.handle), s.tokens + {t.handle}, s.oci, s.pcs[t := Locked(Prune(true))])
  {
    called := Moved(s, t, WaitToken(Prune(true)));
    chosen := Moved(called, t, WaitFileLock(Prune(true))).(tokens := s.tokens + {t.handle});
    inside := Moved(chosen, t, Locked(Prune(true))).(fileLock := Some(t.handle));
  }

  lemma Enters(codec: Codec, isRoot: Digest -> bool, disk: Disk, events: seq<Event>, s: System, t: Thread)
    returns (more: seq<Event>, s': System)
    requires ReachedReversed(codec, isRoot, disk, events, s)
    requires At(s, t) == Idle && t.handle !in s.tokens && FileLockAvailable(s, t.handle)
    ensures ReachedReversed(codec, isRoot, disk, more, s')
    ensures s' == System(s.disk, Some(t.handle), s.tokens + {t.handle}, s.oci, s.pcs[t := Locked(Prune(true))])
  {
    var called, chosen;
    called, chosen, s' := EnterSteps(codec, isRoot, s, t);
    more := events + [Call(t, Prune(true))];
    OneMoreReversed(codec, isRoot, disk, events, s, Call(t, Prune(true)), called);
    OneMoreReversed(codec, isRoot, disk, more, called, TakeToken(t), chosen);
    more := more + [TakeToken(t)];
    OneMoreReversed(codec, isRoot, disk, more, chosen, TakeFileLock(t), s');
    more := more + [TakeFileLock(t)];
  }

  /** The two events by which a goroutine that is refused gives its token back. */
  lemma LeaveSteps(codec: Codec, isRoot: Digest -> bool, s: System, t: Thread)
    returns (refused: System, released: System)
    requires At(s, t).Locked?
    ensures NextReversed(codec, isRoot, s, Refuse(t), refused)
    ensures NextReversed(codec, isRoot, refused, ReleaseToken(t), released)
    ensures released == System(s.disk, s.fileLock, s.tokens - {t.handle}, s.oci, s.pcs[t := FileUnlock])
  {
    refused := Moved(s, t, TokenRelease);
    released := Moved(refused, t, FileUnlock).(tokens := s.tokens - {t.handle});
  }

  lemma Leaves(codec: Codec, isRoot: Digest -> bool, disk: Disk, events: seq<Event>, s: System, t: Thread)
    returns (more: seq<Event>, s': System)
    requires ReachedReversed(codec, isRoot, disk, events, s) && At(s, t).Locked?
    ensures ReachedReversed(codec, isRoot, disk, more, s')
    ensures s' == System(s.disk, s.fileLock, s.tokens - {t.handle}, s.oci, s.pcs[t := FileUnlock])
  {
    var refused;
    refused, s' := LeaveSteps(codec, isRoot, s, t);
    OneMoreReversed(codec, isRoot, disk, events, s, Refuse(t), refused);
    more := events + [Refuse(t)];
    OneMoreReversed(codec, isRoot, disk, more, refused, ReleaseToken(t), s');
    more := more + [ReleaseToken(t)];
  }

  /** Why the file lock is given back first: with the token first, a second goroutine of the
      handle gets inside on the lock the handle still holds, the first one gives that lock away,
      and another handle gets inside beside it. */
  lemma ReleaseOrderMatters(codec: Codec, isRoot: Digest -> bool, disk: Disk)
    returns (events: seq<Event>, s: System, t: Thread, u: Thread)
    ensures ReachedReversed(codec, isRoot, disk, events, s)
    ensures t.handle != u.handle && Critical(At(s, t)) && Critical(At(s, u))
  {
    var first: Thread, idle: System;
    idle := System(disk, None, {}, map[], map[]);
    first, t, u := Thread(Handle(0, 0), 0), Thread(Handle(0, 0), 1), Thread(Handle(1, 0), 0);
    events, s := Enters(codec, isRoot, disk, [], idle, first);
    events, s := Leaves(codec, isRoot, disk, events, s, first);
    events, s := Enters(codec, isRoot, disk, events, s, t);
    var unlocked := Moved(s, first, Idle).(fileLock := None);
    OneMoreReversed(codec, isRoot, disk, events, s, UnlockFile(first), unlocked);
    events, s := Enters(codec, isRoot, disk, events + [UnlockFile(first)], unlocked, u);
  }
}
