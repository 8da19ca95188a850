/** DiscoverDependenciesContext (internal/pathplan/dependencies.go): waves until nothing new is
    found, then sorted lists per component. Its outcome does not depend on the order in which
    maps are iterated. */
module Discovery {
  import opened Prelude
  import opened PathTrie
  import opened Dependencies
  import opened DependencyTheory

  /** Files per component. */
  type Ownership = map<string, seq<string>>

  /** No file is listed twice, neither by one component nor by two. */
  ghost predicate SingleOwner(o: Ownership) {
    && (forall c :: c in o ==> Distinct(o[c]))
    && (forall c, d, p :: c in o && d in o && p in o[c] && p in o[d] ==> c == d)
  }

  /** o lists exactly the files of owner, each under its component. */
  ghost predicate Groups(o: Ownership, owner: map<string, string>) {
    && (forall c, p :: c in o && p in o[c] ==> p in owner && owner[p] == c)
    && (forall p :: p in owner ==> owner[p] in o && p in o[owner[p]])
    && (forall c :: c in o ==> Distinct(o[c]))
  }

  ghost function AllFiles(o: Ownership): set<string> {
    set c, p | c in o && p in o[c] :: p
  }

  ghost function ComponentOf(o: Ownership, p: string): (c: string)
    requires p in AllFiles(o)
    ensures c in o && p in o[c]
  {
    var c :| c in o && p in o[c];
    c
  }

  ghost function OwnerOf(o: Ownership): map<string, string> {
    map p | p in AllFiles(o) :: ComponentOf(o, p)
  }

  ghost function FilesOf(owner: map<string, string>, c: string): set<string> {
    set p | p in owner && owner[p] == c
  }

  /** Each component with its files in sorted order. */
  ghost function ByComponent(components: set<string>, owner: map<string, string>): Ownership {
    map c | c in components :: Listing(FilesOf(owner, c))
  }

  type Outcome = Result<(Ownership, seq<string>), DependencyError>

  ghost function Concluded(rules: Rules, components: set<string>, owner: map<string, string>,
                           warnings: set<string>): Outcome
  {
    if Acceptable(rules, Listing(owner.Keys)) then Ok((ByComponent(components, owner), Listing(warnings)))
    else Err(PathsCollide)
  }

  /** The outcome of discovery as a function of its inputs. */
  ghost function Discovered(w: World, rules: Rules, o: Ownership, strict: bool): Outcome {
    match Closure(w, OwnerOf(o), strict, OwnerOf(o), {})
    case Err(e) => Err(e)
    case Ok((owner, warnings)) => Concluded(rules, o.Keys, owner, warnings)
  }

  lemma GroupsOwner(o: Ownership, owner: map<string, string>)
    requires SingleOwner(o) && Groups(o, owner)
    ensures owner == OwnerOf(o)
  {
    forall p ensures p in owner <==> p in AllFiles(o) {
      if p in owner { assert owner[p] in o && p in o[owner[p]]; }
    }
  }

  /** Copies the initial ownership and indexes it by file. */
  method Index(o: Ownership) returns (owner: map<string, string>)
    requires SingleOwner(o)
    ensures owner == OwnerOf(o) && Groups(o, owner)
  {
    owner := map[];
    var todo := o.Keys;
    while todo != {}
      invariant todo <= o.Keys
      invariant forall c, p :: c in o && c !in todo && p in o[c] ==> p in owner
      invariant forall p :: p in owner ==> owner[p] in o && p in o[owner[p]]
      decreases todo
    {
      var c :| c in todo;
      todo := todo - {c};
      var i := 0;
      while i < |o[c]|
        invariant i <= |o[c]|
        invariant forall d, p :: d in o && d !in todo && d != c && p in o[d] ==> p in owner
        invariant forall k :: 0 <= k < i ==> o[c][k] in owner
        invariant forall p :: p in owner ==> owner[p] in o && p in o[owner[p]]
      {
        owner := owner[o[c][i] := c];
        i := i + 1;
      }
    }
    GroupsOwner(o, owner);
  }

  /** done extends owner by the part of next outside todo. */
  ghost predicate Partly(owner: map<string, string>, next: map<string, string>, todo: set<string>,
                         done: map<string, string>)
  {
    done.Keys == owner.Keys + (next.Keys - todo) && forall p :: p in done ==> done[p] == (owner + next)[p]
  }

  lemma PartlyMore(owner: map<string, string>, next: map<string, string>, todo: set<string>,
                   done: map<string, string>, p: string)
    requires next.Keys !! owner.Keys && todo <= next.Keys && p in todo && Partly(owner, next, todo, done)
    ensures p !in done && Partly(owner, next, todo - {p}, done[p := next[p]])
  {
  }

  lemma PartlyDone(owner: map<string, string>, next: map<string, string>, done: map<string, string>)
    requires Partly(owner, next, {}, done)
    ensures done == owner + next
  {
  }

  lemma AppendGroups(o: Ownership, owner: map<string, string>, p: string, c: string)
    requires Groups(o, owner) && p !in owner && c in o
    ensures Groups(o[c := o[c] + [p]], owner[p := c])
  {
    var r, owned := o[c := o[c] + [p]], owner[p := c];
    assert p !in o[c];
    forall i, j | 0 <= i < j < |r[c]| ensures r[c][i] != r[c][j] {
      assert r[c][i] in o[c];
    }
    forall q | q in owned ensures owned[q] in r && q in r[owned[q]] {
      assert q != p ==> q in o[owner[q]];
    }
  }

  /** Appends the files of a wave to their components. */
  method Adopt(o: Ownership, owner: map<string, string>, next: map<string, string>) returns (r: Ownership)
    requires Groups(o, owner) && next.Keys !! owner.Keys
    requires forall p :: p in next ==> next[p] in o
    ensures r.Keys == o.Keys && Groups(r, owner + next)
  {
    r := o;
    var todo := next.Keys;
    ghost var done := owner;
    while todo != {}
      invariant todo <= next.Keys && r.Keys == o.Keys
      invariant Partly(owner, next, todo, done)
      invariant Groups(r, done)
      decreases todo
    {
      var p :| p in todo;
      PartlyMore(owner, next, todo, done, p);
      AppendGroups(r, done, p, next[p]);
      r := r[next[p] := r[next[p]] + [p]];
      done := done[p := next[p]];
      todo := todo - {p};
    }
    PartlyDone(owner, next, done);
  }

  method SortLists(o: Ownership) returns (sorted: Ownership)
    ensures sorted == map c | c in o :: Sort(o[c])
  {
    sorted := map[];
    var todo := o.Keys;
    while todo != {}
      invariant todo <= o.Keys && sorted.Keys == o.Keys - todo
      invariant forall c :: c in sorted ==> sorted[c] == Sort(o[c])
      decreases todo
    {
      var c :| c in todo;
      sorted := sorted[c := Sort(o[c])];
      todo := todo - {c};
    }
  }

  /** all holds the files of the components outside todo, once each. */
  ghost predicate Gathered(owner: map<string, string>, todo: set<string>, all: seq<string>) {
    Distinct(all) && Elements(all) == set p | p in owner && owner[p] !in todo
  }

  lemma GatherMore(owner: map<string, string>, todo: set<string>, c: string, all: seq<string>, files: seq<string>)
    requires c in todo && Lists(files, FilesOf(owner, c))
    requires Gathered(owner, todo, all)
    ensures Gathered(owner, todo - {c}, all + files)
  {
    var more := all + files;
    forall i, j | 0 <= i < j < |more| ensures more[i] != more[j] {
      if i < |all| <= j {
        assert more[i] in Elements(all) && files[j - |all|] in Elements(files);
      } else if |all| <= i {
        assert Lt(files[i - |all|], files[j - |all|]);
      }
    }
    assert Elements(more) == Elements(all) + Elements(files);
  }

  /** The files of all components, in some order of the components. */
  method Gather(o: Ownership, ghost owner: map<string, string>) returns (all: seq<string>)
    requires o == ByComponent(o.Keys, owner)
    requires forall p :: p in owner ==> owner[p] in o
    ensures Distinct(all) && Elements(all) == owner.Keys
  {
    all := [];
    var todo := o.Keys;
    assert Gathered(owner, todo, all);
    while todo != {}
      invariant todo <= o.Keys && Gathered(owner, todo, all)
      decreases todo
    {
      var c :| c in todo;
      ListingLists(FilesOf(owner, c));
      GatherMore(owner, todo, c, all, o[c]);
      all := all + o[c];
      todo := todo - {c};
    }
    assert owner.Keys == set p | p in owner && owner[p] !in {};
  }

  lemma SortedFiles(o: Ownership, owner: map<string, string>, c: string)
    requires Groups(o, owner) && c in o
    ensures Sort(o[c]) == Listing(FilesOf(owner, c)) && Lists(Sort(o[c]), FilesOf(owner, c))
  {
    SortStrict(o[c]);
    forall p ensures p in o[c] <==> p in FilesOf(owner, c) {}
    assert Elements(o[c]) == FilesOf(owner, c);
    ListingLists(FilesOf(owner, c));
    ListsUnique(Sort(o[c]), Listing(FilesOf(owner, c)), FilesOf(owner, c));
  }

  lemma SortedOwnership(o: Ownership, owner: map<string, string>)
    requires Groups(o, owner)
    ensures (map c | c in o :: Sort(o[c])) == ByComponent(o.Keys, owner)
  {
    forall c | c in o ensures Sort(o[c]) == Listing(FilesOf(owner, c)) {
      SortedFiles(o, owner, c);
    }
  }

  /** Whether a list is accepted depends on its elements only. */
  lemma AcceptedAsSet(rules: Rules, all: seq<string>)
    requires Distinct(all)
    ensures Check(rules, all, 0) == Accepted <==> Acceptable(rules, Listing(Elements(all)))
  {
    var listed := Listing(Elements(all));
    ListingLists(Elements(all));
    StrictIsDistinct(listed);
    DistinctCount(all);
    DistinctCount(listed);
    ListingMembers(Elements(all));
    Pigeonhole(all, listed);
    AcceptanceIgnoresOrder(rules, all, listed);
    AcceptsExactly(rules, all);
  }

  /** Sorting, the check for collisions, and the warnings in order. */
  method Conclude(rules: Rules, o: Ownership, ghost owner: map<string, string>, warnings: set<string>)
    returns (r: Outcome)
    requires Sensible(rules) && Groups(o, owner)
    ensures r == Concluded(rules, o.Keys, owner, warnings)
  {
    var sorted := SortLists(o);
    SortedOwnership(o, owner);
    var all := Gather(sorted, owner);
    var verdict := ValidateBundlePaths(rules, all);
    AcceptedAsSet(rules, all);
    if verdict != Accepted {
      return Err(PathsCollide);
    }
    var listed := SortedKeys(warnings);
    return Ok((sorted, listed));
  }

  /** A wave hands files only to components that already own a document. */
  lemma NextOwners(w: World, owner: map<string, string>, strict: bool, frontier: map<string, string>,
                   warnings: set<string>)
    requires Wave(w, owner, strict, frontier, warnings).Ok?
    ensures var next := Wave(w, owner, strict, frontier, warnings).value.0;
            forall q :: q in next ==> exists p :: p in frontier && next[q] == frontier[p]
  {
    WaveMeaning(w, owner, strict, frontier, warnings);
    var next := Wave(w, owner, strict, frontier, warnings).value.0;
    forall q | q in next ensures exists p :: p in frontier && next[q] == frontier[p] {
      var p :| Claimant(w, owner, frontier, p, q);
    }
  }

  /** DiscoverDependenciesContext. */
  method DiscoverDependencies(w: World, rules: Rules, ownership: Ownership, strict: bool) returns (r: Outcome)
    requires Sensible(rules) && SingleOwner(ownership)
    ensures r == Discovered(w, rules, ownership, strict)
  {
    var owner := Index(ownership);
    var result := ownership;
    var frontier := owner;
    var warnings: set<string> := {};
    ghost var init := owner;
    while frontier != map[]
      invariant result.Keys == ownership.Keys && Groups(result, owner)
      invariant forall p :: p in frontier ==> frontier[p] in ownership
      invariant Closure(w, init, strict, init, {}) == Closure(w, owner, strict, frontier, warnings)
      decreases |w.files - owner.Keys|, |frontier|
    {
      var wave := DiscoverWave(w, frontier, owner, strict, warnings);
      if wave.Err? {
        return Err(wave.error);
      }
      var next := wave.value.0;
      Shrinks(w, owner, strict, frontier, warnings);
      WaveFinds(w, owner, strict, frontier, warnings);
      NextOwners(w, owner, strict, frontier, warnings);
      result := Adopt(result, owner, next);
      owner := owner + next;
      frontier := next;
      warnings := wave.value.1;
    }
    r := Conclude(rules, result, owner, warnings);
  }

  lemma ListedBy(components: set<string>, owner: map<string, string>, c: string, p: string)
    requires c in components
    ensures p in ByComponent(components, owner)[c] <==> p in owner && owner[p] == c
  {
    ListingMembers(FilesOf(owner, c));
  }

  lemma Covered(components: set<string>, owner: map<string, string>, p: string)
    requires p in owner ==> owner[p] in components
    ensures p in AllFiles(ByComponent(components, owner)) <==> p in owner.Keys
  {
    var r := ByComponent(components, owner);
    if p in owner { ListedBy(components, owner, owner[p], p); }
    forall c | c in r ensures p in r[c] ==> p in owner { ListedBy(components, owner, c, p); }
  }

  lemma Arranged(components: set<string>, owner: map<string, string>)
    requires forall p :: p in owner ==> owner[p] in components
    ensures var r := ByComponent(components, owner);
            && SingleOwner(r) && AllFiles(r) == owner.Keys
            && (forall c :: c in r ==> StrictlyAscending(r[c]))
  {
    var r := ByComponent(components, owner);
    forall c | c in r ensures Distinct(r[c]) && StrictlyAscending(r[c]) {
      ListingLists(FilesOf(owner, c));
      StrictIsDistinct(r[c]);
    }
    forall c, d, p | c in r && d in r && p in r[c] && p in r[d] ensures c == d {
      ListedBy(components, owner, c, p);
      ListedBy(components, owner, d, p);
    }
    forall p ensures p in AllFiles(r) <==> p in owner.Keys {
      Covered(components, owner, p);
    }
  }

  lemma FileKept(w: World, o: Ownership, strict: bool, c: string, p: string)
    requires SingleOwner(o) && c in o && p in o[c]
    requires Closure(w, OwnerOf(o), strict, OwnerOf(o), {}).Ok?
    ensures var owner := Closure(w, OwnerOf(o), strict, OwnerOf(o), {}).value.0;
            p in owner && owner[p] == c
  {
    assert p in AllFiles(o) && ComponentOf(o, p) == c;
    LeastClosedSet(w, OwnerOf(o), strict);
  }

  lemma NextInside(w: World, owner: map<string, string>, strict: bool, frontier: map<string, string>,
                   warnings: set<string>, components: set<string>)
    requires Wave(w, owner, strict, frontier, warnings).Ok?
    requires forall p :: p in owner ==> owner[p] in components
    requires forall p :: p in frontier ==> frontier[p] in components
    ensures var next := Wave(w, owner, strict, frontier, warnings).value.0;
            && (forall p :: p in next ==> next[p] in components)
            && (forall p :: p in owner + next ==> (owner + next)[p] in components)
  {
    NextOwners(w, owner, strict, frontier, warnings);
  }

  lemma {:induction false} ClosureComponents(w: World, owner: map<string, string>, strict: bool,
                                             frontier: map<string, string>, warnings: set<string>,
                                             components: set<string>)
    requires forall p :: p in owner ==> owner[p] in components
    requires forall p :: p in frontier ==> frontier[p] in components
    ensures var r := Closure(w, owner, strict, frontier, warnings);
            r.Ok? ==> forall p :: p in r.value.0 ==> r.value.0[p] in components
    decreases |w.files - owner.Keys|, |frontier|
  {
    if frontier != map[] && Wave(w, owner, strict, frontier, warnings).Ok? {
      var (next, more) := Wave(w, owner, strict, frontier, warnings).value;
      Shrinks(w, owner, strict, frontier, warnings);
      NextInside(w, owner, strict, frontier, warnings, components);
      ClosureComponents(w, owner + next, strict, next, more, components);
    }
  }

  /** What a successful discovery hands on: the same components, none smaller than before, each
      with a strictly ascending list, no file in two lists, and all files together acceptable. */
  lemma DiscoveredIsSound(w: World, rules: Rules, o: Ownership, strict: bool)
    requires SingleOwner(o) && Discovered(w, rules, o, strict).Ok?
    ensures var r := Discovered(w, rules, o, strict).value.0;
            && r.Keys == o.Keys && SingleOwner(r)
            && (forall c :: c in r ==> StrictlyAscending(r[c]))
            && (forall c, p :: c in o && p in o[c] ==> p in r[c])
            && Acceptable(rules, Listing(AllFiles(r)))
  {
    var init := OwnerOf(o);
    var owner := Closure(w, init, strict, init, {}).value.0;
    ClosureComponents(w, init, strict, init, {}, o.Keys);
    Arranged(o.Keys, owner);
    forall c, p | c in o && p in o[c] ensures p in ByComponent(o.Keys, owner)[c] {
      FileKept(w, o, strict, c, p);
      ListedBy(o.Keys, owner, c, p);
    }
  }

  /** A shortest chain of references leads from a file of component c to q. */
  ghost predicate Draws(w: World, o: Ownership, c: string, q: string)
    requires c in o
  {
    exists chain :: Shortest(w, OwnerOf(o), chain) && chain[|chain| - 1] == q && chain[0] in o[c]
  }

  lemma {:induction false} StartedBy(o: Ownership, c: string, p: string)
    requires SingleOwner(o) && c in o
    ensures p in o[c] <==> p in OwnerOf(o) && OwnerOf(o)[p] == c
  {
    if p in o[c] { assert p in AllFiles(o); }
  }

  lemma {:induction false} DrawnExactly(w: World, o: Ownership, strict: bool, c: string, q: string)
    requires SingleOwner(o) && c in o && Closure(w, OwnerOf(o), strict, OwnerOf(o), {}).Ok?
    ensures var owner := Closure(w, OwnerOf(o), strict, OwnerOf(o), {}).value.0;
            q in ByComponent(o.Keys, owner)[c] <==> Draws(w, o, c, q)
  {
    var init := OwnerOf(o);
    DiscoverySucceedsExactly(w, init, strict);
    var owner := Closure(w, init, strict, init, {}).value.0;
    ListedBy(o.Keys, owner, c, q);
    if q in owner && owner[q] == c {
      var chain :| IsChain(w, init, chain) && chain[|chain| - 1] == q;
      var shortest := ShortestExists(w, init, chain);
      StartedBy(o, c, shortest[0]);
    }
    if Draws(w, o, c, q) {
      var chain :| Shortest(w, init, chain) && chain[|chain| - 1] == q && chain[0] in o[c];
      StartedBy(o, c, chain[0]);
    }
  }

  /** A document of the result warns with message m. */
  ghost predicate WarnedOf(w: World, r: Ownership, m: string) {
    exists c, p :: c in r && p in r[c] && Warns(w, p, m)
  }

  lemma {:induction false} MessagesOf(w: World, owner: map<string, string>, components: set<string>, m: string)
    requires forall p :: p in owner ==> owner[p] in components
    ensures WarnedOf(w, ByComponent(components, owner), m) <==> exists p :: p in owner && Warns(w, p, m)
  {
    var r := ByComponent(components, owner);
    if WarnedOf(w, r, m) {
      var c, p :| c in r && p in r[c] && Warns(w, p, m);
      ListedBy(components, owner, c, p);
    }
    if p :| p in owner && Warns(w, p, m) {
      ListedBy(components, owner, owner[p], p);
    }
  }

  /** What discovery hands on: a component has exactly the files to which a shortest chain of
      references leads from its own, and the messages are, in order, those of the dangling targets
      of all these files; a strict discovery has none. */
  lemma {:induction false} DiscoveredExactly(w: World, rules: Rules, o: Ownership, strict: bool)
    requires SingleOwner(o) && Discovered(w, rules, o, strict).Ok?
    ensures var (r, messages) := Discovered(w, rules, o, strict).value;
            && r.Keys == o.Keys
            && (forall c, q :: c in o ==> (q in r[c] <==> Draws(w, o, c, q)))
            && StrictlyAscending(messages)
            && forall m :: m in messages <==> !strict && WarnedOf(w, r, m)
  {
    var init := OwnerOf(o);
    var (owner, warnings) := Closure(w, init, strict, init, {}).value;
    var r := ByComponent(o.Keys, owner);
    forall c, q | c in o ensures q in r[c] <==> Draws(w, o, c, q) {
      DrawnExactly(w, o, strict, c, q);
    }
    ListingLists(warnings);
    ListingMembers(warnings);
    ClosureComponents(w, init, strict, init, {}, o.Keys);
    forall m ensures m in warnings <==> !strict && WarnedOf(w, r, m) {
      WarningsExactly(w, init, strict, m);
      MessagesOf(w, owner, o.Keys, m);
    }
  }
}
