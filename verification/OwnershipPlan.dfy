/** Component ownership (internal/pathplan/plan.go): which component each file of the source tree
    belongs to. The outcome is the same for every order in which Go iterates the rule map. */
module OwnershipPlan {
  import opened Prelude
  import opened BundlePath
  import opened PathTrie
  import opened Discovery
  import opened SourceWalk
  import opened WalkTheory

  /** Compiled inclusion rules per component. */
  type Matchers = map<string, string -> bool>

  datatype PlanError =
    | OwnedTwice(path: string, components: seq<string>)
    | SourceError(error: WalkError)
    | Unacceptable

  function Matched(m: Matchers, path: string): set<string> {
    set c | c in m && m[c](path)
  }

  lemma SingleElement(xs: set<string>, x: string)
    requires |xs| == 1 && x in xs
    ensures xs == {x}
  {
    assert |xs - {x}| == 0;
    assert xs == {x} + (xs - {x});
  }

  ghost function Only(xs: set<string>): (x: string)
    requires |xs| == 1
    ensures xs == {x}
  {
    var x :| x in xs;
    SingleElement(xs, x);
    x
  }

  /** The component of path, or "" when no single component matches. */
  ghost function Owner(m: Matchers, path: string): string {
    if |Matched(m, path)| == 1 then Only(Matched(m, path)) else ""
  }

  /** resolveOwner: the rules in any order. */
  method ResolveOwner(m: Matchers, path: string) returns (owner: string, conflict: seq<string>)
    ensures owner == Owner(m, path)
    ensures conflict == if |Matched(m, path)| <= 1 then [] else Listing(Matched(m, path))
  {
    owner := "";
    var matched: seq<string> := [];
    var todo := m.Keys;
    while todo != {}
      invariant todo <= m.Keys && Distinct(matched)
      invariant Elements(matched) == set c | c in m && c !in todo && m[c](path)
      invariant owner == if matched == [] then "" else matched[|matched| - 1]
      decreases todo
    {
      var c :| c in todo;
      todo := todo - {c};
      if m[c](path) {
        assert c !in Elements(matched);
        owner := c;
        assert Elements(matched + [c]) == Elements(matched) + {c};
        matched := matched + [c];
      }
    }
    assert Elements(matched) == Matched(m, path);
    DistinctCount(matched);
    if |matched| <= 1 {
      conflict := [];
      if |matched| == 1 { assert owner in Elements(matched); }
    } else {
      owner := "";
      conflict := Sort(matched);
      SortStrict(matched);
      ListingLists(Matched(m, path));
      ListsUnique(conflict, Listing(Matched(m, path)), Matched(m, path));
    }
  }

  predicate Refuses(m: Matchers, ignored: string -> bool, path: string) {
    !ignored(path) && |Matched(m, path)| > 1
  }

  function SourceFor(dirs: map<nat, seq<Child>>, rules: Rules, m: Matchers, ignored: string -> bool): Source {
    Source(dirs, rules, path => Refuses(m, ignored, path))
  }

  /** A name in a directory holds no slash. */
  ghost predicate Slashless(s: Source) {
    forall d, i :: d in s.dirs && 0 <= i < |s.dirs[d]| ==> '/' !in s.dirs[d][i].name
  }

  /** What the operating system guarantees of directory listings. */
  ghost predicate ProperTree(dirs: map<nat, seq<Child>>, rules: Rules) {
    var s := Source(dirs, rules, path => false);
    Listed(s) && Slashless(s)
  }

  /** The component of every file that has one. */
  ghost function Owners(m: Matchers, ignored: string -> bool, files: seq<string>): map<string, string> {
    map p | p in Elements(files) && !ignored(p) && Owner(m, p) != "" :: Owner(m, p)
  }

  /** The outcome of PlanContext: a walk error first, in walk order; then files by component. */
  ghost function Planned(dirs: map<nat, seq<Child>>, root: nat, rules: Rules, m: Matchers,
                         ignored: string -> bool): Result<Ownership, PlanError>
  {
    var r := WalkDir(SourceFor(dirs, rules, m, ignored), [], [root]);
    match r.error
    case Some(Refused(path)) => Err(OwnedTwice(path, Listing(Matched(m, path))))
    case Some(e) => Err(SourceError(e))
    case None =>
      var owner := Owners(m, ignored, Paths(r.files));
      if Acceptable(rules, Listing(owner.Keys)) then Ok(ByComponent(owner.Values, owner)) else Err(Unacceptable)
  }

  lemma ProperSource(dirs: map<nat, seq<Child>>, rules: Rules, m: Matchers, ignored: string -> bool)
    requires ProperTree(dirs, rules)
    ensures Listed(SourceFor(dirs, rules, m, ignored)) && Slashless(SourceFor(dirs, rules, m, ignored))
  {
    var s := Source(dirs, rules, path => false);
    assert Listed(s) && Slashless(s);
    assert SourceFor(dirs, rules, m, ignored).dirs == s.dirs;
  }

  /** o lists the files of owner under their components, and no other component. */
  ghost predicate Tracks(o: Ownership, owner: map<string, string>) {
    Groups(o, owner) && o.Keys == owner.Values
  }

  lemma OneMore(m: Matchers, ignored: string -> bool, files: seq<string>, i: nat)
    requires i < |files| && Distinct(files)
    ensures var now, next := Owners(m, ignored, files[..i]), Owners(m, ignored, files[..i + 1]);
            && files[i] !in now
            && next == if ignored(files[i]) || Owner(m, files[i]) == "" then now
                       else now[files[i] := Owner(m, files[i])]
  {
    assert files[i] !in files[..i];
    assert Elements(files[..i + 1]) == Elements(files[..i]) + {files[i]};
  }

  lemma ValuesAfter(owner: map<string, string>, path: string, c: string)
    requires path !in owner
    ensures owner[path := c].Values == owner.Values + {c}
  {
    var next := owner[path := c];
    forall x | x in owner.Values ensures x in next.Values {
      var p :| p in owner && owner[p] == x;
      assert next[p] == x;
    }
    assert next[path] == c;
  }

  lemma Credit(o: Ownership, owner: map<string, string>, path: string, c: string)
    requires Tracks(o, owner) && path !in owner
    ensures Tracks(o[c := (if c in o then o[c] else []) + [path]], owner[path := c])
  {
    var empty: seq<string> := [];
    if c in o {
      AppendGroups(o, owner, path, c);
    } else {
      AppendGroups(o[c := empty], owner, path, c);
      assert o[c := empty][c := empty + [path]] == o[c := empty + [path]];
    }
    ValuesAfter(owner, path, c);
  }

  /** The visitor of the walk, file by file. */
  method Assign(m: Matchers, ignored: string -> bool, files: seq<string>) returns (o: Ownership)
    requires Distinct(files)
    ensures Tracks(o, Owners(m, ignored, files))
  {
    o := map[];
    ghost var owners: map<string, string> := map[];
    var i := 0;
    while i < |files|
      invariant i <= |files|
      invariant owners == Owners(m, ignored, files[..i]) && Tracks(o, owners)
    {
      var path := files[i];
      OneMore(m, ignored, files, i);
      if !ignored(path) {
        var owner, conflict := ResolveOwner(m, path);
        if owner != "" {
          Credit(o, owners, path, owner);
          o := o[owner := (if owner in o then o[owner] else []) + [path]];
          owners := owners[path := owner];
        }
      }
      i := i + 1;
    }
    assert files[..i] == files;
  }

  lemma {:induction false} EntryRefuses(s: Source, chain: Chain, ancestors: seq<nat>, c: Child)
    ensures var e := WalkEntry(s, chain, ancestors, c).error;
            e.Some? && e.value.Refused? ==> s.refuse(e.value.path)
    decreases Remaining(s, ancestors), 1, 0
  {
    if c.target.ToDir? && c.target.id !in ancestors {
      Deeper(s, ancestors, c.target.id);
      DirRefuses(s, chain + [c.name], ancestors + [c.target.id]);
    }
  }

  lemma {:induction false} EntriesRefuse(s: Source, chain: Chain, ancestors: seq<nat>, entries: seq<Child>)
    ensures var e := WalkEntries(s, chain, ancestors, entries).error;
            e.Some? && e.value.Refused? ==> s.refuse(e.value.path)
    decreases Remaining(s, ancestors), 1, |entries|
  {
    if entries != [] {
      EntryRefuses(s, chain, ancestors, entries[0]);
      EntriesRefuse(s, chain, ancestors, entries[1..]);
    }
  }

  lemma {:induction false} DirRefuses(s: Source, chain: Chain, ancestors: seq<nat>)
    requires ancestors != []
    ensures var e := WalkDir(s, chain, ancestors).error; e.Some? && e.value.Refused? ==> s.refuse(e.value.path)
    decreases Remaining(s, ancestors), if Last(ancestors) in s.dirs then 2 else 0, 0
  {
    if Last(ancestors) in s.dirs { EntriesRefuse(s, chain, ancestors, s.dirs[Last(ancestors)]); }
  }

  lemma RefusedTwice(s: Source, m: Matchers, ignored: string -> bool, root: nat)
    requires s == SourceFor(s.dirs, s.rules, m, ignored) && Listed(s)
    requires WalkDir(s, [], [root]).error.Some? && WalkDir(s, [], [root]).error.value.Refused?
    ensures |Matched(m, WalkDir(s, [], [root]).error.value.path)| > 1
  {
    DirRefuses(s, [], [root]);
  }

  ghost predicate Plain(f: Chain) {
    f != [] && forall i :: 0 <= i < |f| ==> '/' !in f[i]
  }

  ghost predicate Segments(f: Chain) {
    forall i :: 0 <= i < |f| ==> '/' !in f[i]
  }

  lemma OneMoreSegment(chain: Chain, name: string)
    requires Segments(chain) && '/' !in name
    ensures Plain(chain + [name])
  {
  }

  lemma {:induction false} EntrySlashless(s: Source, chain: Chain, ancestors: seq<nat>, c: Child, f: Chain)
    requires Slashless(s) && Segments(chain) && '/' !in c.name
    ensures f in WalkEntry(s, chain, ancestors, c).files ==> Plain(f)
    decreases Remaining(s, ancestors), 1, 0
  {
    OneMoreSegment(chain, c.name);
    if c.target.ToDir? && c.target.id !in ancestors {
      Deeper(s, ancestors, c.target.id);
      DirSlashless(s, chain + [c.name], ancestors + [c.target.id], f);
    }
  }

  lemma {:induction false} EntriesSlashless(s: Source, chain: Chain, ancestors: seq<nat>, entries: seq<Child>, f: Chain)
    requires Slashless(s) && Segments(chain)
    requires forall i :: 0 <= i < |entries| ==> '/' !in entries[i].name
    ensures f in WalkEntries(s, chain, ancestors, entries).files ==> Plain(f)
    decreases Remaining(s, ancestors), 1, |entries|
  {
    if entries != [] {
      EntrySlashless(s, chain, ancestors, entries[0], f);
      EntriesSlashless(s, chain, ancestors, entries[1..], f);
    }
  }

  lemma {:induction false} DirSlashless(s: Source, chain: Chain, ancestors: seq<nat>, f: Chain)
    requires Slashless(s) && ancestors != [] && Segments(chain)
    ensures f in WalkDir(s, chain, ancestors).files ==> Plain(f)
    decreases Remaining(s, ancestors), if Last(ancestors) in s.dirs then 2 else 0, 0
  {
    if Last(ancestors) in s.dirs {
      var entries := s.dirs[Last(ancestors)];
      forall i | 0 <= i < |entries| ensures '/' !in entries[i].name {
        assert '/' !in s.dirs[Last(ancestors)][i].name;
      }
      EntriesSlashless(s, chain, ancestors, entries, f);
    }
  }

  lemma {:induction false} PathsAt(files: seq<Chain>)
    ensures |Paths(files)| == |files|
    ensures forall i :: 0 <= i < |files| ==> Paths(files)[i] == PathOf(files[i])
  {
    if files != [] { PathsAt(files[1..]); }
  }

  lemma DistinctPaths(files: seq<Chain>)
    requires Distinct(files) && forall f :: f in files ==> Plain(f)
    ensures Distinct(Paths(files))
  {
    PathsAt(files);
    forall i, j | 0 <= i < j < |files| ensures PathOf(files[i]) != PathOf(files[j]) {
      assert Plain(files[i]) && Plain(files[j]);
      SplitJoin(files[i]);
      SplitJoin(files[j]);
    }
  }

  /** Different chains of names are different paths. */
  lemma PathsDistinct(s: Source, root: nat)
    requires Listed(s) && Slashless(s)
    ensures Distinct(Paths(WalkDir(s, [], [root]).files))
  {
    var files := WalkDir(s, [], [root]).files;
    WalkVisitsExactly(s, root);
    forall f | f in files ensures Plain(f) { DirSlashless(s, [], [root], f); }
    DistinctPaths(files);
  }

  method PlanContext(dirs: map<nat, seq<Child>>, root: nat, rules: Rules, m: Matchers, ignored: string -> bool)
    returns (r: Result<Ownership, PlanError>)
    requires Sensible(rules) && ProperTree(dirs, rules)
    ensures r == Planned(dirs, root, rules, m, ignored)
  {
    var s := SourceFor(dirs, rules, m, ignored);
    ProperSource(dirs, rules, m, ignored);
    var ancestors := new nat[] [root];
    assert ancestors[..1] == [root];
    var files, error := WalkDirectory(s, "", [], root, ancestors, 1);
    if error.Some? {
      if error.value.Refused? {
        var owner, conflict := ResolveOwner(m, error.value.path);
        RefusedTwice(s, m, ignored, root);
        return Err(OwnedTwice(error.value.path, conflict));
      }
      return Err(SourceError(error.value));
    }
    PathsDistinct(s, root);
    var ownership := Assign(m, ignored, files);
    ghost var owner := Owners(m, ignored, files);
    var concluded := Conclude(rules, ownership, owner, {});
    match concluded {
      case Ok(sorted) => r := Ok(sorted.0);
      case Err(_) => r := Err(Unacceptable);
    }
  }

  lemma NoneEmpty(owner: map<string, string>)
    ensures forall c :: c in owner.Values ==> ByComponent(owner.Values, owner)[c] != []
  {
    forall c | c in owner.Values ensures ByComponent(owner.Values, owner)[c] != [] {
      var p :| p in owner && owner[p] == c;
      ListedBy(owner.Values, owner, c, p);
    }
  }

  /** What a successful plan owns: every component it lists has a file, and the lists are
      strictly ascending, disjoint and together acceptable. */
  lemma PlannedIsSound(dirs: map<nat, seq<Child>>, root: nat, rules: Rules, m: Matchers, ignored: string -> bool)
    requires Planned(dirs, root, rules, m, ignored).Ok?
    ensures var o := Planned(dirs, root, rules, m, ignored).value;
            && SingleOwner(o) && Acceptable(rules, Listing(AllFiles(o)))
            && (forall c :: c in o ==> o[c] != [] && StrictlyAscending(o[c]))
  {
    var files := WalkDir(SourceFor(dirs, rules, m, ignored), [], [root]).files;
    var owner := Owners(m, ignored, Paths(files));
    Arranged(owner.Values, owner);
    NoneEmpty(owner);
  }

  lemma OwnedExactly(m: Matchers, ignored: string -> bool, files: seq<Chain>, names: Chain, c: string)
    requires names in files
    ensures var owner := Owners(m, ignored, Paths(files));
            c in owner.Values && PathOf(names) in ByComponent(owner.Values, owner)[c] <==>
            !ignored(PathOf(names)) && Matched(m, PathOf(names)) == {c} && c != ""
  {
    var owner, p := Owners(m, ignored, Paths(files)), PathOf(names);
    PathsAt(files);
    var i :| 0 <= i < |files| && files[i] == names;
    assert Paths(files)[i] == p && p in Elements(Paths(files));
    if c in owner.Values { ListedBy(owner.Values, owner, c, p); }
    if p in owner { assert owner[p] in owner.Values; }
    assert Matched(m, p) == {c} ==> |Matched(m, p)| == 1;
  }

  /** A logical file is owned by c exactly when it is not ignored and c is the only component
      whose rules match it. */
  lemma PlannedExactly(dirs: map<nat, seq<Child>>, root: nat, rules: Rules, m: Matchers, ignored: string -> bool,
                       names: Chain, c: string)
    requires ProperTree(dirs, rules)
    requires WalkTheory.Follow(SourceFor(dirs, rules, m, ignored), root, names) == Some(ToFile)
    requires Planned(dirs, root, rules, m, ignored).Ok?
    ensures var o := Planned(dirs, root, rules, m, ignored).value;
            c in o && PathOf(names) in o[c] <==>
            && !ignored(PathOf(names)) && c != "" && c in m && m[c](PathOf(names))
            && forall d :: d in m && m[d](PathOf(names)) ==> d == c
  {
    assert Matched(m, PathOf(names)) == {c} <==>
           c in m && m[c](PathOf(names)) && forall d :: d in m && m[d](PathOf(names)) ==> d == c by {
      if c in m && m[c](PathOf(names)) && forall d :: d in m && m[d](PathOf(names)) ==> d == c {
        assert c in Matched(m, PathOf(names));
      }
      if Matched(m, PathOf(names)) == {c} {
        forall d | d in m && m[d](PathOf(names)) ensures d == c { assert d in Matched(m, PathOf(names)); }
        assert c in Matched(m, PathOf(names));
      }
    }
    var s := SourceFor(dirs, rules, m, ignored);
    ProperSource(dirs, rules, m, ignored);
    WalkVisitsExactly(s, root);
    OwnedExactly(m, ignored, WalkDir(s, [], [root]).files, names, c);
  }

  lemma OwnersDeclared(dirs: map<nat, seq<Child>>, root: nat, rules: Rules, m: Matchers, ignored: string -> bool)
    requires Planned(dirs, root, rules, m, ignored).Ok?
    ensures Planned(dirs, root, rules, m, ignored).value.Keys <= m.Keys
  {
    var files := WalkDir(SourceFor(dirs, rules, m, ignored), [], [root]).files;
    var owner := Owners(m, ignored, Paths(files));
    forall c | c in owner.Values ensures c in m.Keys {
      var p :| p in owner && owner[p] == c;
      assert c in Matched(m, p);
    }
  }

  lemma TwoMatches(xs: set<string>, a: string, b: string)
    requires a in xs && b in xs && a != b
    ensures |xs| > 1
  {
    assert |xs - {a}| > 0 by { assert b in xs - {a}; }
  }

  /** A successful plan has no file that the rules of two components match, unless it is ignored;
      and a conflict names such a file and exactly the components that match it. */
  lemma ConflictExactly(dirs: map<nat, seq<Child>>, root: nat, rules: Rules, m: Matchers, ignored: string -> bool)
    requires ProperTree(dirs, rules)
    ensures match Planned(dirs, root, rules, m, ignored)
            case Err(OwnedTwice(p, components)) =>
              && !ignored(p) && StrictlyAscending(components) && |components| > 1
              && forall c :: c in components <==> c in m && m[c](p)
            case Err(_) => true
            case Ok(_) =>
              forall names, a, b ::
                && WalkTheory.Follow(SourceFor(dirs, rules, m, ignored), root, names) == Some(ToFile)
                && a in m && m[a](PathOf(names)) && b in m && m[b](PathOf(names)) && !ignored(PathOf(names))
                ==> a == b
  {
    var s := SourceFor(dirs, rules, m, ignored);
    ProperSource(dirs, rules, m, ignored);
    DirRefused(s, [], [root]);
    match Planned(dirs, root, rules, m, ignored)
    case Err(OwnedTwice(p, components)) =>
      ListingLists(Matched(m, p));
      ListingMembers(Matched(m, p));
      StrictIsDistinct(components);
      DistinctCount(components);
    case Err(_) =>
    case Ok(_) =>
      WalkVisitsExactly(s, root);
      forall names, a, b | WalkTheory.Follow(s, root, names) == Some(ToFile)
        && a in m && m[a](PathOf(names)) && b in m && m[b](PathOf(names)) && !ignored(PathOf(names))
        ensures a == b
      {
        if a != b { TwoMatches(Matched(m, PathOf(names)), a, b); }
      }
  }
}
