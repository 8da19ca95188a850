/** From the checker to the extractor, and from the source tree to the extracted one: an artifact
    that passes deep verification extracts (artifact/verify.go against artifact/extract.go), and
    a built one leaves the source files behind. */
module RoundTrip {
  import opened Prelude
  import opened PathTrie
  import opened Limits
  import opened Extraction
  import opened ExtractionTheory
  import opened Entrypoints
  import opened Planning
  import opened PlanTheory
  import opened ArtifactVerify
  import opened BuildVerify
  import X = ArtifactExtraction

  const DEFAULTS := WithDefaults(Options(0, 0, 0))

  /** The stream of a component as extraction reads it: the checker does not look at how the bytes
      after the tar terminator are read. */
  function Delivered(s: Stream, tail: seq<nat>): X.Stream {
    if s.Tar? then X.Opened(Archive(s.entries, s.complete, tail, s.intact), s.intact) else X.Unopened
  }

  function TailOf(tails: map<string, seq<nat>>, kind: string): seq<nat> {
    if kind in tails then tails[kind] else []
  }

  /** The components of an artifact, each read twice with the same outcome. */
  function Components(r: Reader, tails: map<string, seq<nat>>): seq<X.Component> {
    seq(|r.components|, i requires 0 <= i < |r.components| =>
      var kind := r.components[i].kind;
      var s := Delivered(OpenStream(r.streams, kind), TailOf(tails, kind));
      X.Component(kind, s, s))
  }

  /** The tar bytes of a component that count against the limit of extraction. */
  function Budgeted(r: Reader, tails: map<string, seq<nat>>, kind: string): int {
    var s := OpenStream(r.streams, kind);
    (if s.Tar? then SizeOfFirst(s.entries, |s.entries|) else 0) + Sum(TailOf(tails, kind))
  }

  lemma {:induction false} DeclaredSizes(entries: seq<Entry>, k: nat)
    requires k <= |entries|
    ensures Declared(entries[..k]) == SizeOfFirst(entries, k)
  {
    if k > 0 {
      assert entries[..k][..k - 1] == entries[..k - 1];
      DeclaredSizes(entries, k - 1);
    }
  }

  lemma SizesSafe(rules: Rules, entries: seq<Entry>)
    requires TarSafe(rules, entries)
    ensures SizesFromTar(entries) && |entries| <= DEFAULT_MAX_FILES
  {
    forall i | 0 <= i < |entries| ensures 0 <= entries[i].size { assert EntrySafe(rules, entries, i); }
    if entries != [] { assert EntrySafe(rules, entries, |entries| - 1); }
  }

  /** The preflight accepts a verified stream unless the bytes after the terminator exceed what the
      entries leave of the total. */
  lemma SoundStreamScans(rules: Rules, s: Stream, tail: seq<nat>)
    requires StreamSound(rules, s)
    ensures X.Scannable(rules, DEFAULTS, Delivered(s, tail)) <==>
            SizeOfFirst(s.entries, |s.entries|) + Sum(tail) <= DEFAULT_MAX_TOTAL_SIZE
    ensures SizesFromTar(s.entries)
  {
    DeclaredSizes(s.entries, |s.entries|);
    assert s.entries[..|s.entries|] == s.entries;
    SizesSafe(rules, s.entries);
    forall i | 0 <= i < |s.entries| ensures EntryInLimits(rules, DEFAULTS, s.entries[i]) {
      assert EntrySafe(rules, s.entries, i);
    }
  }

  lemma {:induction false} AllOpened(components: seq<Layer>, n: nat)
    requires n <= |components|
    ensures OpenedFirst(components, "", n) == Kinds(components)[..n]
  {
    if n > 0 {
      AllOpened(components, n - 1);
      assert Kinds(components)[..n] == Kinds(components)[..n - 1] + [components[n - 1].kind];
    }
  }

  /** Checker and preflight test the same list of names. */
  lemma {:induction false} SameNames(r: Reader, tails: map<string, seq<nat>>, n: nat)
    requires n <= |r.components|
    ensures Names(X.AllEntries(X.Archives(Components(r, tails)), n)) == AllNames(r.streams, Kinds(r.components)[..n])
  {
    if n > 0 {
      SameNames(r, tails, n - 1);
      var kinds, before := Kinds(r.components)[..n], X.AllEntries(X.Archives(Components(r, tails)), n - 1);
      assert kinds[..|kinds| - 1] == Kinds(r.components)[..n - 1];
      NamesConcat(before, X.Archives(Components(r, tails))[n - 1].entries);
    }
  }

  lemma {:induction false} SizesNotNegative(rules: Rules, entries: seq<Entry>, k: nat)
    requires TarSafe(rules, entries) && k <= |entries|
    ensures 0 <= SizeOfFirst(entries, k)
  {
    if k > 0 {
      SizesNotNegative(rules, entries, k - 1);
      assert EntrySafe(rules, entries, k - 1);
    }
  }

  /** No component exceeds the total with the bytes after its terminator. */
  ghost predicate WithinBudget(r: Reader, tails: map<string, seq<nat>>) {
    forall i :: 0 <= i < |r.components| ==> Budgeted(r, tails, r.components[i].kind) <= DEFAULT_MAX_TOTAL_SIZE
  }

  /** Every component of a verified artifact can be read and scanned. */
  lemma VerifiedStreams(x: Syntax, rules: Rules, r: Reader, tails: map<string, seq<nat>>, i: nat)
    requires DeepOk(x, rules, r, "") && i < |r.components|
    ensures var s := OpenStream(r.streams, r.components[i].kind);
            StreamSound(rules, s) && SizesFromTar(s.entries)
    ensures var c := Components(r, tails)[i];
            && X.Good(c.extracted)
            && (X.Scannable(rules, DEFAULTS, c.scanned) <==>
                Budgeted(r, tails, r.components[i].kind) <= DEFAULT_MAX_TOTAL_SIZE)
  {
    AllOpened(r.components, |r.components|);
    assert Kinds(r.components)[..|r.components|] == Kinds(r.components);
    assert StreamSound(rules, OpenStream(r.streams, Kinds(r.components)[i]));
    SoundStreamScans(rules, OpenStream(r.streams, r.components[i].kind), TailOf(tails, r.components[i].kind));
  }

  lemma {:induction false} VerifiedNames(x: Syntax, rules: Rules, r: Reader, tails: map<string, seq<nat>>)
    requires DeepOk(x, rules, r, "")
    ensures Acceptable(rules, Names(X.ScannedEntries(Components(r, tails))))
  {
    AllOpened(r.components, |r.components|);
    assert Kinds(r.components)[..|r.components|] == Kinds(r.components);
    SameNames(r, tails, |r.components|);
  }

  ghost predicate AllScannable(rules: Rules, components: seq<X.Component>) {
    forall i :: 0 <= i < |components| ==> X.Scannable(rules, DEFAULTS, components[i].scanned)
  }

  lemma {:induction false} VerifiedReads(x: Syntax, rules: Rules, r: Reader, tails: map<string, seq<nat>>)
    requires DeepOk(x, rules, r, "")
    ensures X.SizesKnown(Components(r, tails)) && X.GoodFrom(Components(r, tails), 0)
    ensures AllScannable(rules, Components(r, tails)) <==> WithinBudget(r, tails)
  {
    var components := Components(r, tails);
    forall i | 0 <= i < |r.components|
      ensures X.Good(components[i].extracted) && SizesFromTar(X.ArchiveOf(components[i].scanned).entries)
      ensures X.Scannable(rules, DEFAULTS, components[i].scanned) <==>
              Budgeted(r, tails, r.components[i].kind) <= DEFAULT_MAX_TOTAL_SIZE
    {
      VerifiedStreams(x, rules, r, tails, i);
    }
  }

  lemma {:induction false} VerifiedPreflight(x: Syntax, rules: Rules, r: Reader, tails: map<string, seq<nat>>)
    requires DeepOk(x, rules, r, "")
    ensures X.SizesKnown(Components(r, tails)) && X.Reread(Components(r, tails)) && X.GoodFrom(Components(r, tails), 0)
    ensures X.PreflightOk(rules, DEFAULTS, Components(r, tails)) <==> WithinBudget(r, tails)
  {
    VerifiedReads(x, rules, r, tails);
    VerifiedNames(x, rules, r, tails);
  }

  /** The file at path holds data. */
  predicate Holds(rules: Rules, tree: Tree, path: string, data: Bytes) {
    rules.keys(path) in tree && tree[rules.keys(path)] == File(data)
  }

  /** The entry k of component i is one of all entries. */
  lemma {:induction false} EntryAmong(components: seq<Archive>, i: nat, k: nat, n: nat) returns (j: nat)
    requires i < n <= |components| && k < |components[i].entries|
    ensures j < |X.AllEntries(components, n)| && X.AllEntries(components, n)[j] == components[i].entries[k]
  {
    if i == n - 1 {
      j := |X.AllEntries(components, n - 1)| + k;
    } else {
      j := EntryAmong(components, i, k, n - 1);
    }
  }

  /** Extraction of a deeply verified artifact into an empty destination, within the default
      limits: it succeeds exactly when no component carries more bytes after its tar terminator
      than its entries leave of the total; otherwise nothing is written. */
  lemma VerifiedExtractsExactly(x: Syntax, rules: Rules, r: Reader, tails: map<string, seq<nat>>,
                                overwrite: bool, tree: Tree)
    requires Sensible(rules) && DeepOk(x, rules, r, "") && tree.Keys <= {[]} && DirectoryPath(tree, [])
    ensures var (result, after) := X.ExtractAll(rules, DEFAULTS, overwrite, Components(r, tails), "", tree);
            && (result.Ok? <==> WithinBudget(r, tails))
            && (result.Err? ==> after == tree)
            && (result.Ok? ==> X.Written(rules, Components(r, tails), |r.components|, tree, after))
  {
    var components := Components(r, tails);
    VerifiedPreflight(x, rules, r, tails);
    X.PreflightExactly(rules, DEFAULTS, components);
    X.AllOrNothing(rules, DEFAULTS, overwrite, components, tree);
  }

  /** An instance: any verified artifact is refused as soon as one of its components is followed by
      more bytes than the limit allows. */
  lemma PaddingIsRefused(x: Syntax, rules: Rules, r: Reader, i: nat, overwrite: bool, tree: Tree)
    requires Sensible(rules) && DeepOk(x, rules, r, "") && tree.Keys <= {[]} && DirectoryPath(tree, [])
    requires i < |r.components|
    ensures var tails := map[r.components[i].kind := [DEFAULT_MAX_TOTAL_SIZE + 1]];
            X.ExtractAll(rules, DEFAULTS, overwrite, Components(r, tails), "", tree).0.Err?
  {
    var kind := r.components[i].kind;
    var tails := map[kind := [DEFAULT_MAX_TOTAL_SIZE + 1]];
    VerifiedStreams(x, rules, r, tails, i);
    VerifiedExtractsExactly(x, rules, r, tails, overwrite, tree);
    SizesNotNegative(rules, OpenStream(r.streams, kind).entries, |OpenStream(r.streams, kind).entries|);
    assert Sum([DEFAULT_MAX_TOTAL_SIZE + 1]) == DEFAULT_MAX_TOTAL_SIZE + 1;
  }

  /** The files of a verified artifact: after extraction each component's entries are there with
      their own bytes. */
  lemma VerifiedFiles(x: Syntax, rules: Rules, r: Reader, tails: map<string, seq<nat>>, overwrite: bool, tree: Tree,
                      i: nat, k: nat)
    requires Sensible(rules) && DeepOk(x, rules, r, "") && tree.Keys <= {[]} && DirectoryPath(tree, [])
    requires WithinBudget(r, tails) && i < |r.components|
    requires var s := OpenStream(r.streams, r.components[i].kind); s.Tar? && k < |s.entries|
    ensures var after := X.ExtractAll(rules, DEFAULTS, overwrite, Components(r, tails), "", tree).1;
            var e := OpenStream(r.streams, r.components[i].kind).entries[k];
            0 <= e.size <= |e.data| && Holds(rules, after, e.name, e.data[..e.size])
  {
    var components := Components(r, tails);
    VerifiedStreams(x, rules, r, tails, i);
    assert EntrySafe(rules, OpenStream(r.streams, r.components[i].kind).entries, k);
    VerifiedPreflight(x, rules, r, tails);
    VerifiedExtractsExactly(x, rules, r, tails, overwrite, tree);
    var j := EntryAmong(X.Archives(components), i, k, |components|);
    X.ExtractedContent(rules, DEFAULTS, overwrite, components, tree, j);
  }

  /** Without bytes after the terminators a verified artifact is always extracted. */
  lemma {:induction false} NoTailFits(x: Syntax, rules: Rules, r: Reader)
    requires DeepOk(x, rules, r, "")
    ensures WithinBudget(r, map[])
  {
    forall i | 0 <= i < |r.components| ensures Budgeted(r, map[], r.components[i].kind) <= DEFAULT_MAX_TOTAL_SIZE {
      VerifiedStreams(x, rules, r, map[], i);
      var entries := OpenStream(r.streams, r.components[i].kind).entries;
      if entries != [] { assert EntrySafe(rules, entries, |entries| - 1); }
    }
  }

  lemma {:induction false} EntryOrigin(components: seq<Archive>, j: nat, n: nat) returns (i: nat, k: nat)
    requires n <= |components| && j < |X.AllEntries(components, n)|
    ensures i < n && k < |components[i].entries| && X.AllEntries(components, n)[j] == components[i].entries[k]
  {
    var before := |X.AllEntries(components, n - 1)|;
    if j < before {
      i, k := EntryOrigin(components, j, n - 1);
    } else {
      i, k := n - 1, j - before;
    }
  }

  /** q is the place of an archived file. */
  ghost predicate Archived(rules: Rules, components: seq<Archive>, q: seq<string>) {
    exists i, k :: 0 <= i < |components| && 0 <= k < |components[i].entries|
                   && rules.keys(components[i].entries[k].name) == q
  }

  /** Nothing but the archived files and directories above them is extracted. */
  lemma {:induction false} NothingElse(rules: Rules, components: seq<X.Component>, tree: Tree, after: Tree,
                                       q: seq<string>)
    requires Sensible(rules) && tree.Keys <= {[]} && DirectoryPath(tree, []) && q in after && after[q] != Dir
    requires X.Written(rules, components, |components|, tree, after)
    ensures Archived(rules, X.Archives(components), q)
  {
    var entries := X.ScannedEntries(components);
    assert EMPTY[..0] == [] && (q == [] ==> q == EMPTY[..0]);
    assert components != [] ==> GrownAt(rules, entries, tree, after, q);
    var j := StoredAt(rules, entries, q);
    var i, k := EntryOrigin(X.Archives(components), j, |components|);
  }

  ghost predicate IsFile(rules: Rules, tree: Tree, path: string) {
    rules.keys(path) in tree && tree[rules.keys(path)].File?
  }

  /** A name of a component of a verified artifact is a file after extraction. */
  lemma {:induction false} VerifiedName(x: Syntax, rules: Rules, r: Reader, tails: map<string, seq<nat>>,
                                        overwrite: bool, tree: Tree, c: string, p: string)
    requires Sensible(rules) && DeepOk(x, rules, r, "") && tree.Keys <= {[]} && DirectoryPath(tree, [])
    requires WithinBudget(r, tails) && c in Kinds(r.components) && p in FileNames(r.streams, c)
    ensures IsFile(rules, X.ExtractAll(rules, DEFAULTS, overwrite, Components(r, tails), "", tree).1, p)
  {
    var i :| 0 <= i < |r.components| && Kinds(r.components)[i] == c;
    var k :| 0 <= k < |FileNames(r.streams, c)| && FileNames(r.streams, c)[k] == p;
    VerifiedFiles(x, rules, r, tails, overwrite, tree, i, k);
  }

  /** A component's configuration refers to p: as its entrypoint, as the entrypoint of a locale, or
      as a file of a locale. */
  ghost predicate RefersTo(cc: ComponentConfig, p: string) {
    || (p == cc.entrypoint && p != "")
    || exists k :: k in cc.locales && (p in cc.locales[k].files || (p == cc.locales[k].entrypoint && p != ""))
  }

  lemma {:induction false} LocaleReferenceOwned(x: Syntax, owned: seq<string>, cc: ComponentConfig, p: string)
    requires ComponentLocalesOk(x, owned, cc.locales) && RefersTo(cc, p)
    requires cc.entrypoint == "" || cc.entrypoint in owned
    ensures p in owned
  {
    if p != cc.entrypoint || p == "" {
      var k :| k in cc.locales && (p in cc.locales[k].files || (p == cc.locales[k].entrypoint && p != ""));
      assert LocaleFilesOk(x, owned, cc.locales[k]);
    }
  }

  lemma {:induction false} ReferredIsNamed(x: Syntax, rules: Rules, r: Reader, c: string, p: string)
    requires Sound(x, rules, r, "", false) && c in r.config.components && RefersTo(r.config.components[c], p)
    ensures c in Kinds(r.components) && p in FileNames(r.streams, c)
  {
    var cc, names := r.config.components[c], NamesOf(r.streams, Kinds(r.components));
    AllOpened(r.components, |r.components|);
    assert Kinds(r.components)[..|r.components|] == Kinds(r.components);
    assert c in Elements(Kinds(r.components)) && names[c] == FileNames(r.streams, c);
    assert OwnedEntrypoint(r.config, names, c);
    LocaleReferenceOwned(x, names[c], cc, p);
  }

  /** What a verified configuration refers to is extracted. */
  lemma {:induction false} VerifiedReferences(x: Syntax, rules: Rules, r: Reader, tails: map<string, seq<nat>>,
                                              overwrite: bool, tree: Tree, c: string, p: string)
    requires Sensible(rules) && Sound(x, rules, r, "", false) && tree.Keys <= {[]} && DirectoryPath(tree, [])
    requires WithinBudget(r, tails) && c in r.config.components && RefersTo(r.config.components[c], p)
    ensures IsFile(rules, X.ExtractAll(rules, DEFAULTS, overwrite, Components(r, tails), "", tree).1, p)
  {
    ReferredIsNamed(x, rules, r, c, p);
    VerifiedName(x, rules, r, tails, overwrite, tree, c, p);
  }

  /** Where a file is in the archive of its component. */
  lemma {:induction false} BuiltEntry(plan: BuildPlan, mediaType: string, content: Contents, c: string, p: string)
    returns (i: nat, k: nat)
    requires plan.ownership.Keys != {} && Supported(mediaType) && WithinLimits(content, plan.ownership)
    requires c in plan.ownership && p in plan.ownership[c]
    ensures var r := Built(plan, mediaType, content);
            && i < |r.components| && r.components[i].kind == c && r.streams[c].Tar? && k < |r.streams[c].entries|
            && var e := r.streams[c].entries[k];
               e.name == p && e.size == |content(p)| && e.data == content(p)
  {
    var names := Listing(plan.ownership.Keys);
    BuiltShape(plan, mediaType);
    assert c in Elements(names);
    i :| 0 <= i < |names| && names[i] == c;
    FitsTar(content, plan.ownership, c);
    var paths := plan.ownership[c];
    TarArchives(content, paths);
    SortedMembers(paths);
    k :| 0 <= k < |Sort(paths)| && Sort(paths)[k] == p;
    assert Names(TarOf(content, paths))[k] == p;
  }

  /** q is the place of an owned file. */
  ghost predicate OwnedPlace(rules: Rules, plan: BuildPlan, q: seq<string>) {
    exists c, p :: c in plan.ownership && p in plan.ownership[c] && rules.keys(p) == q
  }

  lemma {:induction false} BuiltPlace(rules: Rules, plan: BuildPlan, mediaType: string, content: Contents,
                                      q: seq<string>)
    requires plan.ownership.Keys != {} && Supported(mediaType) && WithinLimits(content, plan.ownership)
    requires Archived(rules, X.Archives(Components(Built(plan, mediaType, content), map[])), q)
    ensures OwnedPlace(rules, plan, q)
  {
    var r := Built(plan, mediaType, content);
    var archives := X.Archives(Components(r, map[]));
    var i, k :| 0 <= i < |archives| && 0 <= k < |archives[i].entries| && rules.keys(archives[i].entries[k].name) == q;
    var c := r.components[i].kind;
    BuiltShape(plan, mediaType);
    assert c in Listing(plan.ownership.Keys);
    FitsTar(content, plan.ownership, c);
    TarArchives(content, plan.ownership[c]);
    SortedMembers(plan.ownership[c]);
    assert Names(archives[i].entries)[k] in Sort(plan.ownership[c]);
  }

  /** A whole file of a component is extracted as it is. */
  lemma {:induction false} WholeFile(x: Syntax, rules: Rules, r: Reader, overwrite: bool, tree: Tree, i: nat, k: nat)
    requires Sensible(rules) && tree.Keys <= {[]} && DirectoryPath(tree, [])
    requires DeepOk(x, rules, r, "") && i < |r.components|
    requires var s := OpenStream(r.streams, r.components[i].kind);
             s.Tar? && k < |s.entries| && s.entries[k].size == |s.entries[k].data|
    ensures var e := OpenStream(r.streams, r.components[i].kind).entries[k];
            Holds(rules, X.ExtractAll(rules, DEFAULTS, overwrite, Components(r, map[]), "", tree).1, e.name, e.data)
  {
    var e := OpenStream(r.streams, r.components[i].kind).entries[k];
    NoTailFits(x, rules, r);
    VerifiedFiles(x, rules, r, map[], overwrite, tree, i, k);
    assert e.data[..e.size] == e.data;
  }

  /** Each owned file of a verified built artifact is extracted with the content of its source. */
  lemma {:induction false} BuiltFile(x: Syntax, rules: Rules, plan: BuildPlan, mediaType: string, content: Contents,
                                     overwrite: bool, tree: Tree, c: string, p: string)
    requires plan.ownership.Keys != {} && Supported(mediaType) && WithinLimits(content, plan.ownership)
    requires Sensible(rules) && tree.Keys <= {[]} && DirectoryPath(tree, [])
    requires DeepOk(x, rules, Built(plan, mediaType, content), "")
    requires c in plan.ownership && p in plan.ownership[c]
    ensures var components := Components(Built(plan, mediaType, content), map[]);
            Holds(rules, X.ExtractAll(rules, DEFAULTS, overwrite, components, "", tree).1, p, content(p))
  {
    var n, k := BuiltEntry(plan, mediaType, content, c, p);
    WholeFile(x, rules, Built(plan, mediaType, content), overwrite, tree, n, k);
  }

  /** Nothing but the owned files and directories above them is extracted. */
  lemma {:induction false} BuiltNothingElse(x: Syntax, rules: Rules, plan: BuildPlan, mediaType: string,
                                            content: Contents, overwrite: bool, tree: Tree, q: seq<string>)
    requires plan.ownership.Keys != {} && Supported(mediaType) && WithinLimits(content, plan.ownership)
    requires Sensible(rules) && tree.Keys <= {[]} && DirectoryPath(tree, [])
    requires DeepOk(x, rules, Built(plan, mediaType, content), "")
    ensures var components := Components(Built(plan, mediaType, content), map[]);
            var (result, after) := X.ExtractAll(rules, DEFAULTS, overwrite, components, "", tree);
            result.Ok? && (q in after && after[q] != Dir ==> OwnedPlace(rules, plan, q))
  {
    var r := Built(plan, mediaType, content);
    NoTailFits(x, rules, r);
    VerifiedExtractsExactly(x, rules, r, map[], overwrite, tree);
    var after := X.ExtractAll(rules, DEFAULTS, overwrite, Components(r, map[]), "", tree).1;
    if q in after && after[q] != Dir {
      NothingElse(rules, Components(r, map[]), tree, after, q);
      BuiltPlace(rules, plan, mediaType, content, q);
    }
  }

  /** tree holds exactly the owned files, each with its content, and directories. */
  ghost predicate SourceFiles(rules: Rules, plan: BuildPlan, content: Contents, tree: Tree) {
    && (forall c, p :: c in plan.ownership && p in plan.ownership[c] ==>
          rules.keys(p) in tree && tree[rules.keys(p)] == File(content(p)))
    && forall q :: q in tree && tree[q] != Dir ==>
         exists c, p :: c in plan.ownership && p in plan.ownership[c] && rules.keys(p) == q
  }

  lemma {:induction false} BuiltExtracts(x: Syntax, rules: Rules, plan: BuildPlan, mediaType: string,
                                         content: Contents, overwrite: bool, tree: Tree)
    requires plan.ownership.Keys != {} && Supported(mediaType) && WithinLimits(content, plan.ownership)
    requires Sensible(rules) && tree.Keys <= {[]} && DirectoryPath(tree, [])
    requires DeepOk(x, rules, Built(plan, mediaType, content), "")
    ensures var components := Components(Built(plan, mediaType, content), map[]);
            var (result, after) := X.ExtractAll(rules, DEFAULTS, overwrite, components, "", tree);
            result.Ok? && SourceFiles(rules, plan, content, after)
  {
    var r := Built(plan, mediaType, content);
    var (result, after) := X.ExtractAll(rules, DEFAULTS, overwrite, Components(r, map[]), "", tree);
    BuiltNothingElse(x, rules, plan, mediaType, content, overwrite, tree, []);
    forall c, p | c in plan.ownership && p in plan.ownership[c] ensures Holds(rules, after, p, content(p)) {
      BuiltFile(x, rules, plan, mediaType, content, overwrite, tree, c, p);
    }
    forall q | q in after && after[q] != Dir ensures OwnedPlace(rules, plan, q) {
      BuiltNothingElse(x, rules, plan, mediaType, content, overwrite, tree, q);
    }
  }

  /** Build, then extract: whatever plan the program accepts, the artifact built from it within the
      default limits extracts into an empty destination, and leaves exactly the owned files, each
      with the content of its source. */
  lemma {:induction false} BuildThenExtract(i: Inputs, plan: BuildPlan, mediaType: string, content: Contents,
                                            overwrite: bool, tree: Tree)
    requires Sensible(i.rules) && IsPlan(i, Ok(plan)) && Supported(mediaType)
    requires WithinLimits(content, plan.ownership) && tree.Keys <= {[]} && DirectoryPath(tree, [])
    ensures var components := Components(Built(plan, mediaType, content), map[]);
            var (result, after) := X.ExtractAll(i.rules, DEFAULTS, overwrite, components, "", tree);
            result.Ok? && SourceFiles(i.rules, plan, content, after)
  {
    PlansAreSound(i, Ok(plan));
    BuiltDeepOk(i.x, i.rules, plan, mediaType, content, "");
    BuiltExtracts(i.x, i.rules, plan, mediaType, content, overwrite, tree);
  }
}
