/** Extraction of an artifact (artifact/extract.go, artifact/list.go): a preflight reads every
    selected component once and checks all names together, then each component is read again
    and written. */
module ArtifactExtraction {
  import opened Prelude
  import opened PathTrie
  import opened Limits
  import opened Extraction
  import opened ExtractionTheory
  import opened OverwriteTheory

  /** What one read of a component yields: it cannot be opened or decoded, or a tar stream, and
      whether the rest of both streams, the digest and the closing then check out. */
  datatype Stream = Unopened | Opened(archive: Archive, intact: bool)

  /** A component: its type, what the preflight reads, and what the extraction reads. */
  datatype Component = Component(kind: string, scanned: Stream, extracted: Stream)

  predicate Good(s: Stream) {
    s.Opened? && s.intact
  }

  function ArchiveOf(s: Stream): Archive {
    if s.Opened? then s.archive else Archive([], true, [], true)
  }

  /** The archives that the preflight reads. */
  function Archives(components: seq<Component>): seq<Archive> {
    seq(|components|, i requires 0 <= i < |components| => ArchiveOf(components[i].scanned))
  }

  /** A good read has passed the digest check, so two good reads of a component yield the same
      archive. */
  ghost predicate Reread(components: seq<Component>) {
    forall i :: 0 <= i < |components| && Good(components[i].scanned) && Good(components[i].extracted) ==>
      components[i].scanned.archive == components[i].extracted.archive
  }

  /** filterComponents: the first component of the wanted type; every component when no type is
      wanted. */
  function Selected(components: seq<Component>, want: string): seq<Component> {
    if want == "" || components == [] then components
    else if components[0].kind == want then [components[0]]
    else Selected(components[1..], want)
  }

  /** All entries of the first n components. */
  function AllEntries(components: seq<Archive>, n: nat): seq<Entry>
    requires n <= |components|
  {
    if n == 0 then [] else AllEntries(components, n - 1) + components[n - 1].entries
  }

  /** The names of one component, or why it cannot be listed. */
  function Listed(rules: Rules, opts: Options, s: Stream): Result<seq<string>, ExtractError> {
    if s.Unopened? then Err(Unreadable)
    else match ScanFrom(rules, opts, s.archive, 0)
      case Err(e) => Err(Rejected(e))
      case Ok(_) => if s.intact then Ok(Names(s.archive.entries)) else Err(Unreadable)
  }

  function FirstScanError(rules: Rules, opts: Options, components: seq<Component>, n: nat): Option<ExtractError>
    requires n <= |components|
    decreases |components| - n
  {
    if n == |components| then None
    else match Listed(rules, opts, components[n].scanned)
      case Err(e) => Some(e)
      case Ok(_) => FirstScanError(rules, opts, components, n + 1)
  }

  /** All names the preflight checks together. */
  function ScannedEntries(components: seq<Component>): seq<Entry> {
    AllEntries(Archives(components), |components|)
  }

  function Preflight(rules: Rules, opts: Options, components: seq<Component>): Option<ExtractError> {
    var scan := FirstScanError(rules, opts, components, 0);
    var verdict := Check(rules, Names(ScannedEntries(components)), 0);
    if scan.Some? then scan
    else if verdict != Accepted then Some(NotAcceptable(verdict))
    else None
  }

  /** extractComponent: the files are written before the rest of the streams is checked. */
  function WriteStream(rules: Rules, opts: Options, overwrite: bool, s: Stream, tree: Tree)
    : (Result<Info, ExtractError>, Tree)
    requires Sensible(rules)
  {
    if s.Unopened? then (Err(Unreadable), tree)
    else
      var (r, after) := Extracted(rules, opts, overwrite, s.archive, tree);
      (if r.Ok? && !s.intact then Err(Unreadable) else r, after)
  }

  function WriteAll(rules: Rules, opts: Options, overwrite: bool, components: seq<Component>, n: nat, tree: Tree)
    : (Result<(), ExtractError>, Tree)
    requires Sensible(rules) && n <= |components|
    decreases |components| - n
  {
    if n == |components| then (Ok(()), tree)
    else
      var (r, after) := WriteStream(rules, opts, overwrite, components[n].extracted, tree);
      match r
      case Err(e) => (Err(e), after)
      case Ok(_) => WriteAll(rules, opts, overwrite, components, n + 1, after)
  }

  function ExtractSelected(rules: Rules, opts: Options, overwrite: bool, components: seq<Component>, tree: Tree)
    : (Result<(), ExtractError>, Tree)
    requires Sensible(rules)
  {
    match Preflight(rules, opts, components)
    case Some(e) => (Err(e), tree)
    case None => WriteAll(rules, opts, overwrite, components, 0, tree)
  }

  function ExtractAll(rules: Rules, opts: Options, overwrite: bool, components: seq<Component>, want: string,
                      tree: Tree)
    : (Result<(), ExtractError>, Tree)
    requires Sensible(rules)
  {
    var selected := Selected(components, want);
    if want != "" && selected == [] then (Err(NotFound), tree)
    else ExtractSelected(rules, opts, overwrite, selected, tree)
  }

  method Select(components: seq<Component>, want: string) returns (selected: seq<Component>)
    ensures selected == Selected(components, want)
  {
    if want == "" {
      return components;
    }
    var i := 0;
    while i < |components|
      invariant i <= |components| && Selected(components, want) == Selected(components[i..], want)
    {
      assert components[i..][1..] == components[i + 1..];
      if components[i].kind == want {
        return [components[i]];
      }
      i := i + 1;
    }
    return [];
  }

  /** listComponentFiles. */
  method ListComponentFiles(rules: Rules, options: Options, s: Stream) returns (r: Result<seq<string>, ExtractError>)
    ensures r == Listed(rules, WithDefaults(options), s)
  {
    if s.Unopened? {
      return Err(Unreadable);
    }
    var names, scanned := Scan(rules, options, s.archive);
    if scanned.Err? {
      return Err(Rejected(scanned.error));
    }
    return if s.intact then Ok(names) else Err(Unreadable);
  }

  /** checkNoCollisions: lists every component and checks the combined names. */
  method CheckNoCollisions(rules: Rules, options: Options, components: seq<Component>)
    returns (failure: Option<ExtractError>)
    requires Sensible(rules)
    ensures failure == Preflight(rules, WithDefaults(options), components)
  {
    var allPaths: seq<string> := [];
    var n := 0;
    while n < |components|
      invariant n <= |components|
      invariant allPaths == Names(AllEntries(Archives(components), n))
      invariant FirstScanError(rules, WithDefaults(options), components, 0)
                == FirstScanError(rules, WithDefaults(options), components, n)
    {
      var listed := ListComponentFiles(rules, options, components[n].scanned);
      if listed.Err? {
        return Some(listed.error);
      }
      NamesConcat(AllEntries(Archives(components), n), Archives(components)[n].entries);
      allPaths := allPaths + listed.value;
      n := n + 1;
    }
    var verdict := ValidateBundlePaths(rules, allPaths);
    return if verdict == Accepted then None else Some(NotAcceptable(verdict));
  }

  /** extractComponent. */
  method ExtractComponent(rules: Rules, options: Options, overwrite: bool, s: Stream, dest: Destination)
    returns (r: Result<Info, ExtractError>)
    requires Sensible(rules)
    modifies dest
    ensures (r, dest.tree) == WriteStream(rules, WithDefaults(options), overwrite, s, old(dest.tree))
  {
    if s.Unopened? {
      return Err(Unreadable);
    }
    r := dest.ExtractContext(rules, options, overwrite, s.archive);
    if r.Ok? && !s.intact {
      r := Err(Unreadable);
    }
  }

  /** artifact.Extract: selection, the preflight over every component, then one extraction after
      another. */
  method Extract(rules: Rules, options: Options, overwrite: bool, components: seq<Component>, want: string,
                 dest: Destination)
    returns (r: Result<(), ExtractError>)
    requires Sensible(rules)
    modifies dest
    ensures (r, dest.tree) == ExtractAll(rules, WithDefaults(options), overwrite, components, want, old(dest.tree))
  {
    var selected := Select(components, want);
    if want != "" && selected == [] {
      return Err(NotFound);
    }
    var failure := CheckNoCollisions(rules, options, selected);
    if failure.Some? {
      return Err(failure.value);
    }
    var n := 0;
    while n < |selected|
      invariant n <= |selected|
      invariant WriteAll(rules, WithDefaults(options), overwrite, selected, 0, old(dest.tree))
                == WriteAll(rules, WithDefaults(options), overwrite, selected, n, dest.tree)
    {
      var done := ExtractComponent(rules, options, overwrite, selected[n].extracted, dest);
      if done.Err? {
        return Err(done.error);
      }
      n := n + 1;
    }
    return Ok(());
  }

  lemma {:induction false} WriteAllKeeps(rules: Rules, opts: Options, components: seq<Component>, n: nat, tree: Tree)
    requires Sensible(rules) && n <= |components|
    ensures Kept(tree, WriteAll(rules, opts, false, components, n, tree).1)
    decreases |components| - n
  {
    if n < |components| {
      var (r, after) := WriteStream(rules, opts, false, components[n].extracted, tree);
      assert Kept(tree, Mkdirs(tree, [], 0));
      KeepsExisting(rules, opts, ArchiveOf(components[n].extracted), 0, Mkdirs(tree, [], 0));
      if r.Ok? { WriteAllKeeps(rules, opts, components, n + 1, after); }
    }
  }

  /** With Overwrite off, extraction of an artifact into any destination keeps every node that
      was there, whether it succeeds, is refused by the preflight, or fails midway. */
  lemma ExtractAllKeeps(rules: Rules, opts: Options, components: seq<Component>, want: string, tree: Tree)
    requires Sensible(rules)
    ensures Kept(tree, ExtractAll(rules, opts, false, components, want, tree).1)
  {
    WriteAllKeeps(rules, opts, Selected(components, want), 0, tree);
  }

  ghost predicate SizesKnown(components: seq<Component>) {
    forall i :: 0 <= i < |components| ==> SizesFromTar(ArchiveOf(components[i].scanned).entries)
  }

  /** A component the preflight accepts. */
  ghost predicate Scannable(rules: Rules, opts: Options, s: Stream) {
    Good(s) && InLimits(rules, opts, s.archive)
  }

  lemma {:induction false} ScanErrorMeans(rules: Rules, opts: Options, components: seq<Component>, n: nat)
    requires LimitsFit(opts) && n <= |components| && SizesKnown(components)
    ensures FirstScanError(rules, opts, components, n).None? <==>
            forall i :: n <= i < |components| ==> Scannable(rules, opts, components[i].scanned)
    decreases |components| - n
  {
    if n < |components| {
      ScanAgreesWithExtract(rules, opts, ArchiveOf(components[n].scanned));
      ScanErrorMeans(rules, opts, components, n + 1);
    }
  }

  /** What the preflight accepts. */
  ghost predicate PreflightOk(rules: Rules, opts: Options, components: seq<Component>) {
    && (forall i :: 0 <= i < |components| ==> Scannable(rules, opts, components[i].scanned))
    && Acceptable(rules, Names(ScannedEntries(components)))
  }

  /** The preflight accepts exactly good, limited components whose names are acceptable
      together. */
  lemma PreflightExactly(rules: Rules, opts: Options, components: seq<Component>)
    requires LimitsFit(opts) && SizesKnown(components)
    ensures Preflight(rules, opts, components).None? <==> PreflightOk(rules, opts, components)
  {
    AcceptsExactly(rules, Names(ScannedEntries(components)));
    ScanErrorMeans(rules, opts, components, 0);
  }

  lemma PrefixFree(rules: Rules, paths: seq<string>, more: seq<string>)
    requires CollisionFree(rules, paths + more)
    ensures CollisionFree(rules, paths)
  {
    forall i, j | 0 <= i < j < |paths| ensures !Collide(rules, paths[i], paths[j]) {
      assert !Collide(rules, (paths + more)[i], (paths + more)[j]);
    }
  }

  lemma {:induction false} EntriesPrefix(components: seq<Archive>, n: nat, m: nat) returns (more: seq<Entry>)
    requires n <= m <= |components|
    ensures AllEntries(components, m) == AllEntries(components, n) + more
  {
    if n == m {
      more := [];
    } else {
      var less := EntriesPrefix(components, n, m - 1);
      more := less + components[m - 1].entries;
    }
  }

  lemma FreePrefix(rules: Rules, components: seq<Archive>, n: nat)
    requires n <= |components| && CollisionFree(rules, Names(AllEntries(components, |components|)))
    ensures CollisionFree(rules, Names(AllEntries(components, n)))
  {
    var more := EntriesPrefix(components, n, |components|);
    NamesConcat(AllEntries(components, n), more);
    PrefixFree(rules, Names(AllEntries(components, n)), Names(more));
  }

  lemma RootIsDir(rules: Rules, done: seq<Entry>, tree: Tree, now: Tree)
    requires Sensible(rules) && Complete(done) && Grown(rules, done, tree, now)
    requires tree.Keys <= {[]} && DirectoryPath(tree, [])
    ensures [] in now && now[[]] == Dir
  {
    assert GrownAt(rules, done, tree, now, []);
    assert EMPTY[..0] == [];
  }

  lemma ReadyForNext(rules: Rules, done: seq<Entry>, first: bool, tree: Tree, now: Tree)
    requires Sensible(rules) && tree.Keys <= {[]} && DirectoryPath(tree, []) && Complete(done)
    requires if first then now == tree && done == [] else Grown(rules, done, tree, now)
    ensures DirectoryPath(now, []) && Grown(rules, done, tree, Mkdirs(now, [], 0))
  {
    if first {
      GrownByNothing(rules, tree);
    } else {
      RootIsDir(rules, done, tree, now);
    }
    assert EMPTY[..0] == [];
  }

  /** Component n, over a tree grown by the earlier components, cannot fail. */
  lemma WritesOne(rules: Rules, opts: Options, overwrite: bool, components: seq<Archive>, n: nat, tree: Tree, now: Tree)
    requires Sensible(rules) && n < |components| && ChecksFrom(rules, opts, components[n], 0).Ok?
    requires tree.Keys <= {[]} && DirectoryPath(tree, [])
    requires CollisionFree(rules, Names(AllEntries(components, |components|)))
    requires Complete(AllEntries(components, n))
    requires if n == 0 then now == tree else Grown(rules, AllEntries(components, n), tree, now)
    ensures var (r, after) := Extracted(rules, opts, overwrite, components[n], now);
            && r.Ok? && Complete(AllEntries(components, n + 1))
            && Grown(rules, AllEntries(components, n + 1), tree, after)
  {
    var a, done := components[n], AllEntries(components, n);
    ReadyForNext(rules, done, n == 0, tree, now);
    assert done + a.entries[..0] == done;
    FreePrefix(rules, components, n);
    FreePrefix(rules, components, n + 1);
    EmptyIsClear(rules, done, tree);
    EmptyIsClear(rules, done + a.entries, tree);
    ExtractsFrom(rules, opts, overwrite, done, a, 0, tree, Mkdirs(now, [], 0));
  }

  /** What is in the destination after the first n components. */
  ghost predicate Written(rules: Rules, components: seq<Component>, n: nat, tree: Tree, now: Tree)
    requires n <= |components|
  {
    var entries := AllEntries(Archives(components), n);
    Complete(entries) && if n == 0 then now == tree else Grown(rules, entries, tree, now)
  }

  lemma WritesNext(rules: Rules, opts: Options, overwrite: bool, components: seq<Component>,
                   n: nat, tree: Tree, before: Tree) returns (now: Tree)
    requires Sensible(rules) && LimitsFit(opts) && SizesKnown(components) && Reread(components)
    requires tree.Keys <= {[]} && DirectoryPath(tree, []) && n < |components|
    requires PreflightOk(rules, opts, components) && Good(components[n].extracted)
    requires Written(rules, components, n, tree, before)
    ensures WriteAll(rules, opts, overwrite, components, n, before)
            == WriteAll(rules, opts, overwrite, components, n + 1, now)
    ensures Written(rules, components, n + 1, tree, now)
  {
    assert Scannable(rules, opts, components[n].scanned);
    ScanAgreesWithExtract(rules, opts, Archives(components)[n]);
    WritesOne(rules, opts, overwrite, Archives(components), n, tree, before);
    now := WriteStream(rules, opts, overwrite, components[n].extracted, before).1;
  }

  /** After a preflight, the first m components are written unless their own second read fails. */
  lemma {:induction false} WritesUpTo(rules: Rules, opts: Options, overwrite: bool, components: seq<Component>,
                                      m: nat, tree: Tree) returns (now: Tree)
    requires Sensible(rules) && LimitsFit(opts) && SizesKnown(components) && Reread(components)
    requires tree.Keys <= {[]} && DirectoryPath(tree, []) && m <= |components|
    requires PreflightOk(rules, opts, components)
    requires forall i :: 0 <= i < m ==> Good(components[i].extracted)
    ensures WriteAll(rules, opts, overwrite, components, 0, tree)
            == WriteAll(rules, opts, overwrite, components, m, now)
    ensures Written(rules, components, m, tree, now)
  {
    if m == 0 {
      now := tree;
    } else {
      var before := WritesUpTo(rules, opts, overwrite, components, m - 1, tree);
      now := WritesNext(rules, opts, overwrite, components, m - 1, tree, before);
    }
  }

  /** The first component whose second read is bad, or the number of components. */
  function FirstBad(components: seq<Component>): (m: nat)
    ensures m <= |components|
    ensures forall i :: 0 <= i < m ==> Good(components[i].extracted)
    ensures m < |components| ==> !Good(components[m].extracted)
  {
    if components == [] || !Good(components[0].extracted) then 0 else 1 + FirstBad(components[1..])
  }

  /** Extracting into an empty destination is all or nothing as long as what the preflight read
      can be read again: it succeeds exactly when the preflight accepts and every second read is
      good; the preflight refuses before anything is written; and on success every file of every
      component is written and nothing else. */
  lemma AllOrNothing(rules: Rules, opts: Options, overwrite: bool, components: seq<Component>, tree: Tree)
    requires Sensible(rules) && LimitsFit(opts) && SizesKnown(components) && Reread(components)
    requires tree.Keys <= {[]} && DirectoryPath(tree, [])
    ensures var (r, after) := ExtractSelected(rules, opts, overwrite, components, tree);
            && (r.Ok? <==>
                  && PreflightOk(rules, opts, components)
                  && forall i :: 0 <= i < |components| ==> Good(components[i].extracted))
            && (Preflight(rules, opts, components).Some? ==> r.Err? && after == tree)
            && (r.Ok? ==> Written(rules, components, |components|, tree, after))
  {
    PreflightExactly(rules, opts, components);
    if Preflight(rules, opts, components).None? {
      var m := FirstBad(components);
      var now := WritesUpTo(rules, opts, overwrite, components, m, tree);
    }
  }

  /** What a component that can no longer be opened leaves behind: exactly the files of the
      components before it. */
  lemma {:induction false} FailedRereadLeaves(rules: Rules, opts: Options, overwrite: bool,
                                              components: seq<Component>, tree: Tree)
    requires Sensible(rules) && LimitsFit(opts) && SizesKnown(components) && Reread(components)
    requires tree.Keys <= {[]} && DirectoryPath(tree, [])
    requires Preflight(rules, opts, components).None?
    requires FirstBad(components) < |components| && components[FirstBad(components)].extracted == Unopened
    ensures var (r, after) := ExtractSelected(rules, opts, overwrite, components, tree);
            r == Err(Unreadable) && Written(rules, components, FirstBad(components), tree, after)
  {
    PreflightExactly(rules, opts, components);
    var now := WritesUpTo(rules, opts, overwrite, components, FirstBad(components), tree);
  }

  /** What a component whose second read fails only after its files, in the digest or in closing,
      leaves behind: the files of the components before it and its own. */
  lemma {:induction false} LateFailureLeaves(rules: Rules, opts: Options, overwrite: bool,
                                             components: seq<Component>, tree: Tree)
    requires Sensible(rules) && LimitsFit(opts) && SizesKnown(components) && Reread(components)
    requires tree.Keys <= {[]} && DirectoryPath(tree, [])
    requires Preflight(rules, opts, components).None? && FirstBad(components) < |components|
    requires var failing := components[FirstBad(components)];
             failing.extracted == Opened(ArchiveOf(failing.scanned), false)
    ensures var (r, after) := ExtractSelected(rules, opts, overwrite, components, tree);
            r == Err(Unreadable) && Written(rules, components, FirstBad(components) + 1, tree, after)
  {
    PreflightExactly(rules, opts, components);
    var m := FirstBad(components);
    var now := WritesUpTo(rules, opts, overwrite, components, m, tree);
    ScanAgreesWithExtract(rules, opts, Archives(components)[m]);
    WritesOne(rules, opts, overwrite, Archives(components), m, tree, now);
  }

  /** What is in any destination after the first n components. */
  ghost predicate WrittenOver(rules: Rules, overwrite: bool, components: seq<Component>, n: nat, tree: Tree, now: Tree)
    requires Sensible(rules) && n <= |components|
  {
    var entries := AllEntries(Archives(components), n);
    && Complete(entries) && AllRoom(rules, entries, tree, overwrite)
    && (if n == 0 then now == tree else DirectoryPath(tree, []) && Over(rules, entries, tree, now))
  }

  lemma PartClashFree(rules: Rules, overwrite: bool, components: seq<Component>, n: nat)
    requires n <= |components| && CollisionFree(rules, Names(ScannedEntries(components)))
    ensures ClashFree(rules, overwrite, AllEntries(Archives(components), n))
  {
    var entries := AllEntries(Archives(components), n);
    FreePrefix(rules, Archives(components), n);
    forall i, j | 0 <= i < j < |entries| ensures !Clash(rules, overwrite, entries[i].name, entries[j].name) {
      assert !Collide(rules, Names(entries)[i], Names(entries)[j]);
    }
  }

  lemma PartRoom(rules: Rules, overwrite: bool, components: seq<Component>, n: nat, tree: Tree)
    requires Sensible(rules) && n <= |components| && AllRoom(rules, ScannedEntries(components), tree, overwrite)
    ensures AllRoom(rules, AllEntries(Archives(components), n), tree, overwrite)
  {
    var part := AllEntries(Archives(components), n);
    var more := EntriesPrefix(Archives(components), n, |components|);
    forall i | 0 <= i < |part| ensures Room(tree, rules.keys(part[i].name), overwrite) {
      assert ScannedEntries(components)[i] == part[i];
    }
  }

  /** Before each component the destination directory is there, and nothing has changed since. */
  lemma RootReady(rules: Rules, entries: seq<Entry>, first: bool, tree: Tree, now: Tree)
    requires Sensible(rules) && Complete(entries) && DirectoryPath(tree, [])
    requires if first then now == tree && entries == [] else Over(rules, entries, tree, now)
    ensures DirectoryPath(now, []) && Over(rules, entries, tree, Mkdirs(now, [], 0))
  {
    assert EMPTY[..0] == [];
    if first {
      OverNothing(rules, tree);
    } else {
      assert OverAt(rules, entries, tree, now, []);
    }
  }

  /** One more archive is written exactly when there is room for its files. */
  lemma {:induction false} AddOver(rules: Rules, opts: Options, overwrite: bool, done: seq<Entry>, a: Archive,
                                   first: bool, tree: Tree, now: Tree)
    requires Sensible(rules) && ChecksFrom(rules, opts, a, 0).Ok?
    requires Complete(done) && AllRoom(rules, done, tree, overwrite)
    requires if first then now == tree && done == [] else DirectoryPath(tree, []) && Over(rules, done, tree, now)
    requires ClashFree(rules, overwrite, done) && ClashFree(rules, overwrite, done + a.entries)
    ensures var (r, after) := Extracted(rules, opts, overwrite, a, now);
            if DirectoryPath(tree, []) && AllRoom(rules, done + a.entries, tree, overwrite)
            then r.Ok? && Complete(done + a.entries) && Over(rules, done + a.entries, tree, after) else r.Err?
  {
    if DirectoryPath(tree, []) {
      assert done + a.entries[..0] == done;
      RootReady(rules, done, first, tree, now);
      ExtractsOver(rules, opts, overwrite, done, a, 0, tree, Mkdirs(now, [], 0));
      assert Extracted(rules, opts, overwrite, a, now).0.Ok? <==> Writable(rules, overwrite, done + a.entries, tree);
    }
  }

  /** A component that can be read again is written exactly when there is room for it. */
  lemma {:induction false} StepOver(rules: Rules, opts: Options, overwrite: bool, components: seq<Component>,
                                    n: nat, tree: Tree, now: Tree)
    requires Sensible(rules) && LimitsFit(opts) && SizesKnown(components) && Reread(components)
    requires n < |components| && PreflightOk(rules, opts, components) && Good(components[n].extracted)
    requires WrittenOver(rules, overwrite, components, n, tree, now)
    ensures var (r, after) := WriteStream(rules, opts, overwrite, components[n].extracted, now);
            if DirectoryPath(tree, []) && AllRoom(rules, AllEntries(Archives(components), n + 1), tree, overwrite)
            then r.Ok? && WrittenOver(rules, overwrite, components, n + 1, tree, after) else r.Err?
  {
    var done, a := AllEntries(Archives(components), n), Archives(components)[n];
    assert Scannable(rules, opts, components[n].scanned);
    ScanAgreesWithExtract(rules, opts, a);
    PartClashFree(rules, overwrite, components, n);
    PartClashFree(rules, overwrite, components, n + 1);
    AddOver(rules, opts, overwrite, done, a, n == 0, tree, now);
  }

  ghost predicate GoodFrom(components: seq<Component>, n: nat) {
    forall i :: n <= i < |components| ==> Good(components[i].extracted)
  }

  /** One component on the way: it is written, or nothing could have written them all. */
  lemma {:induction false} NextOver(rules: Rules, opts: Options, overwrite: bool, components: seq<Component>,
                                    n: nat, tree: Tree, now: Tree)
    requires Sensible(rules) && LimitsFit(opts) && SizesKnown(components) && Reread(components)
    requires n < |components| && PreflightOk(rules, opts, components)
    requires WrittenOver(rules, overwrite, components, n, tree, now)
    ensures var (r, after) := WriteStream(rules, opts, overwrite, components[n].extracted, now);
            if r.Ok?
            then Good(components[n].extracted) && DirectoryPath(tree, [])
                 && WrittenOver(rules, overwrite, components, n + 1, tree, after)
            else !(Good(components[n].extracted) && DirectoryPath(tree, [])
                   && AllRoom(rules, ScannedEntries(components), tree, overwrite))
  {
    if Good(components[n].extracted) {
      StepOver(rules, opts, overwrite, components, n, tree, now);
      if AllRoom(rules, ScannedEntries(components), tree, overwrite) {
        PartRoom(rules, overwrite, components, n + 1, tree);
      }
    }
  }

  lemma {:induction false} GoodNext(components: seq<Component>, n: nat)
    requires n < |components|
    ensures GoodFrom(components, n) <==> Good(components[n].extracted) && GoodFrom(components, n + 1)
  {
  }

  lemma {:induction false} RunOver(rules: Rules, opts: Options, overwrite: bool, components: seq<Component>,
                                   n: nat, tree: Tree, now: Tree)
    requires Sensible(rules) && LimitsFit(opts) && SizesKnown(components) && Reread(components)
    requires n <= |components| && PreflightOk(rules, opts, components)
    requires WrittenOver(rules, overwrite, components, n, tree, now)
    ensures var (r, after) := WriteAll(rules, opts, overwrite, components, n, now);
            && (r.Ok? <==>
                  && GoodFrom(components, n) && (n < |components| ==> DirectoryPath(tree, []))
                  && AllRoom(rules, ScannedEntries(components), tree, overwrite))
            && (r.Ok? ==> WrittenOver(rules, overwrite, components, |components|, tree, after))
    decreases |components| - n
  {
    if n < |components| {
      NextOver(rules, opts, overwrite, components, n, tree, now);
      GoodNext(components, n);
      var (r, after) := WriteStream(rules, opts, overwrite, components[n].extracted, now);
      if r.Ok? { RunOver(rules, opts, overwrite, components, n + 1, tree, after); }
    }
  }

  /** Extraction of an artifact into any destination, with Overwrite or without: it succeeds
      exactly when the preflight accepts, every second read is good, only directories are above
      the files, and at their own places is nothing or, with Overwrite, a regular file. Then
      every archived file holds its own entry, and everything else is as it was or a directory
      above an archived file. */
  lemma {:induction false} ExtractsExactly(rules: Rules, opts: Options, overwrite: bool, components: seq<Component>,
                                           tree: Tree)
    requires Sensible(rules) && LimitsFit(opts) && SizesKnown(components) && Reread(components)
    ensures var (r, after) := ExtractSelected(rules, opts, overwrite, components, tree);
            && (r.Ok? <==>
                  && PreflightOk(rules, opts, components)
                  && (forall i :: 0 <= i < |components| ==> Good(components[i].extracted))
                  && (components != [] ==> DirectoryPath(tree, []))
                  && AllRoom(rules, ScannedEntries(components), tree, overwrite))
            && (r.Ok? ==> WrittenOver(rules, overwrite, components, |components|, tree, after))
  {
    PreflightExactly(rules, opts, components);
    if PreflightOk(rules, opts, components) {
      RunOver(rules, opts, overwrite, components, 0, tree, tree);
    }
  }

  /** After a successful extraction into any destination, every archived name holds exactly its
      own entry, and every other node that was there is unchanged. */
  lemma {:induction false} ExtractedContent(rules: Rules, opts: Options, overwrite: bool, components: seq<Component>,
                                            tree: Tree, i: nat)
    requires Sensible(rules) && LimitsFit(opts) && SizesKnown(components) && Reread(components)
    requires ExtractSelected(rules, opts, overwrite, components, tree).0.Ok? && i < |ScannedEntries(components)|
    ensures var after, e := ExtractSelected(rules, opts, overwrite, components, tree).1, ScannedEntries(components)[i];
            && e.size <= |e.data| && rules.keys(e.name) in after
            && after[rules.keys(e.name)] == File(if e.size < 0 then [] else e.data[..e.size])
    ensures var after := ExtractSelected(rules, opts, overwrite, components, tree).1;
            forall q :: q in tree && (forall k :: 0 <= k < |ScannedEntries(components)| ==>
                                        rules.keys(ScannedEntries(components)[k].name) != q) ==>
              q in after && after[q] == tree[q]
  {
    ExtractsExactly(rules, opts, overwrite, components, tree);
    var after, entries := ExtractSelected(rules, opts, overwrite, components, tree).1, ScannedEntries(components);
    OwnContent(rules, entries, tree, after, i);
    forall q | q in tree && forall k :: 0 <= k < |entries| ==> rules.keys(entries[k].name) != q
      ensures q in after && after[q] == tree[q]
    {
      OthersStay(rules, entries, tree, after, q);
    }
  }

  /** The selector: every component when no type is wanted, else the first one of the type, if
      there is one. */
  lemma {:induction false} SelectedExactly(components: seq<Component>, want: string)
    ensures want == "" ==> Selected(components, want) == components
    ensures want != "" ==>
              || (Selected(components, want) == [] && forall i :: 0 <= i < |components| ==> components[i].kind != want)
              || exists i :: && 0 <= i < |components| && Selected(components, want) == [components[i]]
                             && components[i].kind == want
                             && forall k :: 0 <= k < i ==> components[k].kind != want
  {
    if want != "" && components != [] && components[0].kind != want {
      SelectedExactly(components[1..], want);
      if Selected(components[1..], want) == [] {
        forall i | 0 <= i < |components| ensures components[i].kind != want {
          if i > 0 { assert components[i] == components[1..][i - 1]; }
        }
      } else {
        var rest := components[1..];
        var i :| 0 <= i < |rest| && Selected(rest, want) == [rest[i]] && rest[i].kind == want
                 && forall k :: 0 <= k < i ==> rest[k].kind != want;
        forall k | 0 <= k < i + 1 ensures components[k].kind != want {
          if k > 0 { assert components[k] == rest[k - 1]; }
        }
        assert components[i + 1] == rest[i];
      }
    } else if want != "" && components != [] {
      assert Selected(components, want) == [components[0]];
    }
  }

  /** The selector decides before anything is read: a type that no component has is not found and
      nothing is written; otherwise the outcome is that of the selected components alone. */
  lemma {:induction false} WantedExactly(rules: Rules, opts: Options, overwrite: bool, components: seq<Component>,
                                         want: string, tree: Tree)
    requires Sensible(rules)
    ensures var found := want == "" || exists i :: 0 <= i < |components| && components[i].kind == want;
            ExtractAll(rules, opts, overwrite, components, want, tree) ==
            if found then ExtractSelected(rules, opts, overwrite, Selected(components, want), tree)
            else (Err(NotFound), tree)
  {
    SelectedExactly(components, want);
  }
}
