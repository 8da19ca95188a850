/** Entrypoints and locales of components (internal/pathplan/entrypoint.go, matchers.go,
    spec/validate.go, and the locale part of artifact/plan.go). */
module Entrypoints {
  import opened Prelude
  import opened BundlePath
  import opened Discovery

  /** The string tests and the rule compiler that planning relies on. */
  datatype Syntax = Syntax(
    component: string -> bool,
    locale: string -> bool,
    document: string -> bool,
    compile: seq<string> -> Option<string -> bool>)

  datatype LocaleRules = LocaleRules(paths: seq<string>, isDefault: bool, entrypoint: string)

  datatype ComponentRules = ComponentRules(paths: seq<string>, entrypoint: string, locales: map<string, LocaleRules>)

  /** One locale of a component in the plan. */
  datatype LocalePlan = LocalePlan(isDefault: bool, entrypoint: string, paths: seq<string>)

  lemma {:induction false} FilterMeaning(s: seq<string>, keep: string -> bool)
    ensures forall x :: x in Filter(s, keep) <==> x in s && keep(x)
    ensures StrictlyAscending(s) ==> StrictlyAscending(Filter(s, keep))
  {
    if s != [] {
      FilterMeaning(s[1..], keep);
      assert s == [s[0]] + s[1..];
      var rest := Filter(s[1..], keep);
      if StrictlyAscending(s) {
        forall j | 0 <= j < |rest| ensures Lt(s[0], rest[j]) {
          assert rest[j] in s[1..];
          var i :| 0 <= i < |s[1..]| && s[1..][i] == rest[j];
          assert Lt(s[0], s[i + 1]);
        }
      }
    }
  }

  lemma SortedAlready(s: seq<string>)
    requires StrictlyAscending(s)
    ensures Sort(s) == s
  {
    SortAscending(s);
    forall i, j | 0 <= i < j < |s| ensures Le(s[i], s[j]) { assert Lt(s[i], s[j]); }
    SortMultiset(s);
    AscendingUnique(Sort(s), s);
  }

  /** Auto-detection names per component, in priority order. */
  function Candidates(component: string): seq<string> {
    if component == "documentation" then ["README.md", "README", "README.markdown", "README.mdown", "docs/index.md"]
    else if component == "license" then ["LICENSE", "LICENSE.*", "LICENCE", "COPYING"]
    else if component == "security" then ["SECURITY.md", "SECURITY"]
    else if component == "contributing" then ["CONTRIBUTING.md", "CONTRIBUTING"]
    else if component == "changelog" then ["CHANGELOG.md", "CHANGELOG", "CHANGES.md", "HISTORY.md", "NEWS.md"]
    else if component == "release-notes" then ["RELEASE_NOTES.md", "RELEASE-NOTES.md"]
    else []
  }

  predicate HasSuffix(s: string, suffix: string) {
    |suffix| <= |s| && s[|s| - |suffix|..] == suffix
  }

  /** A candidate ending in "*" matches its prefix and at least one more character. */
  predicate MatchesCandidate(candidate: string, path: string) {
    if HasSuffix(candidate, "*")
    then candidate[..|candidate| - 1] <= path && |candidate| <= |path|
    else candidate == path
  }

  const TEXT_EXTENSIONS := [".md", ".markdown", ".mdown", ".txt"]

  predicate IsText(path: string) {
    exists i :: 0 <= i < |TEXT_EXTENSIONS| && HasSuffix(path, TEXT_EXTENSIONS[i])
  }

  /** A plain candidate matches itself only; the one pattern matches every LICENSE with an
      extension of at least one character. */
  lemma MatchExactly(candidate: string, path: string)
    requires candidate != "" && candidate[|candidate| - 1] != '*'
    ensures MatchesCandidate(candidate, path) <==> path == candidate
    ensures MatchesCandidate("LICENSE.*", path) <==> exists rest :: rest != "" && path == "LICENSE." + rest
  {
    var pattern, stem := "LICENSE.*", "LICENSE.";
    assert pattern[..|pattern| - 1] == stem && pattern[|pattern| - 1..] == "*";
    assert candidate[|candidate| - 1..] == [candidate[|candidate| - 1]];
    if MatchesCandidate(pattern, path) { assert path == stem + path[8..]; }
  }

  /** The text documents are those of four extensions. */
  lemma TextExactly(path: string)
    ensures IsText(path) <==>
            exists stem :: || path == stem + ".md" || path == stem + ".markdown"
                           || path == stem + ".mdown" || path == stem + ".txt"
  {
    if IsText(path) {
      var i :| 0 <= i < |TEXT_EXTENSIONS| && HasSuffix(path, TEXT_EXTENSIONS[i]);
      assert path == path[..|path| - |TEXT_EXTENSIONS[i]|] + TEXT_EXTENSIONS[i];
    }
    if stem :| path == stem + ".md" || path == stem + ".markdown" || path == stem + ".mdown" || path == stem + ".txt" {
      var suffix := path[|stem|..];
      var i := if suffix == ".md" then 0 else if suffix == ".markdown" then 1 else if suffix == ".mdown" then 2 else 3;
      assert TEXT_EXTENSIONS[i] == suffix && HasSuffix(path, suffix);
    }
  }

  function FirstWhere(files: seq<string>, test: string -> bool): (r: Option<string>)
    ensures r.Some? ==> r.value in files && test(r.value)
    ensures r.None? ==> forall f :: f in files ==> !test(f)
  {
    if files == [] then None
    else if test(files[0]) then Some(files[0])
    else FirstWhere(files[1..], test)
  }

  function FirstCandidate(candidates: seq<string>, files: seq<string>): (r: Option<string>)
    ensures r.Some? ==> r.value in files
  {
    if candidates == [] then None
    else
      var found := FirstWhere(files, path => MatchesCandidate(candidates[0], path));
      if found.Some? then found else FirstCandidate(candidates[1..], files)
  }

  /** detectEntrypoint. */
  function Detect(component: string, files: seq<string>): (r: Option<string>)
    ensures r.Some? ==> r.value in files
  {
    var found := FirstCandidate(Candidates(component), files);
    if found.Some? then found
    else if component != "documentation" then None
    else FirstWhere(files, path => IsText(path))
  }

  /** Detection prefers the candidate, not the file: the chosen file matches some candidate, and
      no file at all matches an earlier one. */
  lemma {:induction false} CandidateWins(candidates: seq<string>, files: seq<string>)
    ensures match FirstCandidate(candidates, files)
            case Some(p) => exists i :: 0 <= i < |candidates| && MatchesCandidate(candidates[i], p)
                              && forall k, f :: 0 <= k < i && f in files ==> !MatchesCandidate(candidates[k], f)
            case None => forall k, f :: 0 <= k < |candidates| && f in files ==> !MatchesCandidate(candidates[k], f)
  {
    if candidates != [] {
      var found := FirstWhere(files, path => MatchesCandidate(candidates[0], path));
      if found.Some? {
        assert MatchesCandidate(candidates[0], found.value);
      } else {
        CandidateWins(candidates[1..], files);
        forall k, f | 0 < k < |candidates| && f in files
          ensures MatchesCandidate(candidates[k], f) <==> MatchesCandidate(candidates[1..][k - 1], f) {}
        var r := FirstCandidate(candidates, files);
        if r.Some? {
          var i :| 0 <= i < |candidates[1..]| && MatchesCandidate(candidates[1..][i], r.value)
                   && forall k, f :: 0 <= k < i && f in files ==> !MatchesCandidate(candidates[1..][k], f);
          assert MatchesCandidate(candidates[i + 1], r.value);
          forall k, f | 0 <= k < i + 1 && f in files ensures !MatchesCandidate(candidates[k], f) {
            if k > 0 { assert candidates[k] == candidates[1..][k - 1]; }
          }
        }
      }
    }
  }

  /** The first candidate that path matches, or their number. */
  function FirstMatch(candidates: seq<string>, path: string): (i: nat)
    ensures i <= |candidates| && forall k :: 0 <= k < i ==> !MatchesCandidate(candidates[k], path)
    ensures i < |candidates| ==> MatchesCandidate(candidates[i], path)
  {
    if candidates == [] || MatchesCandidate(candidates[0], path) then 0 else 1 + FirstMatch(candidates[1..], path)
  }

  /** How well a file serves as an entrypoint: the place of the first candidate it matches; after
      all candidates a text file of the documentation; and last what does not serve. */
  function Rank(component: string, path: string): nat {
    var candidates := Candidates(component);
    var i := FirstMatch(candidates, path);
    if i < |candidates| then i
    else if component == "documentation" && IsText(path) then |candidates| else |candidates| + 1
  }

  predicate Serves(component: string, path: string) {
    Rank(component, path) <= |Candidates(component)|
  }

  /** p is the first file of the best rank. */
  ghost predicate BestOf(component: string, files: seq<string>, p: string) {
    exists j :: && 0 <= j < |files| && files[j] == p
                && forall k :: 0 <= k < |files| ==>
                     && Rank(component, files[j]) <= Rank(component, files[k])
                     && (Rank(component, files[j]) == Rank(component, files[k]) ==> j <= k)
  }

  lemma {:induction false} FirstWhereExactly(files: seq<string>, test: string -> bool) returns (j: nat)
    ensures j <= |files| && forall k :: 0 <= k < j ==> !test(files[k])
    ensures FirstWhere(files, test) == if j < |files| then Some(files[j]) else None
    ensures j < |files| ==> test(files[j])
  {
    if files == [] || test(files[0]) {
      j := 0;
    } else {
      j := FirstWhereExactly(files[1..], test);
      j := j + 1;
    }
  }

  /** The candidate loop finds the first of the files with the least first match. */
  lemma {:induction false} FirstCandidateExactly(candidates: seq<string>, files: seq<string>) returns (j: nat)
    ensures FirstCandidate(candidates, files) == if j < |files| then Some(files[j]) else None
    ensures j < |files| ==> FirstMatch(candidates, files[j]) < |candidates|
    ensures j < |files| ==> forall k :: 0 <= k < |files| ==>
              && FirstMatch(candidates, files[j]) <= FirstMatch(candidates, files[k])
              && (FirstMatch(candidates, files[j]) == FirstMatch(candidates, files[k]) ==> j <= k)
    ensures j >= |files| ==> forall k :: 0 <= k < |files| ==> FirstMatch(candidates, files[k]) == |candidates|
  {
    if candidates == [] {
      j := |files|;
    } else {
      j := FirstWhereExactly(files, path => MatchesCandidate(candidates[0], path));
      if j == |files| {
        j := FirstCandidateExactly(candidates[1..], files);
      }
    }
  }

  lemma {:induction false} TextDetected(files: seq<string>)
    requires FirstCandidate(Candidates("documentation"), files).None?
    ensures var found := FirstWhere(files, path => IsText(path));
            && (found.Some? <==> exists p :: p in files && Serves("documentation", p))
            && (found.Some? ==> BestOf("documentation", files, found.value))
  {
    var j := FirstCandidateExactly(Candidates("documentation"), files);
    var n := FirstWhereExactly(files, path => IsText(path));
    if n < |files| { assert files[n] in files && Serves("documentation", files[n]); }
  }

  /** Detection yields the first file of the best rank, if any file serves. */
  lemma {:induction false} DetectExactly(component: string, files: seq<string>)
    ensures Detect(component, files).Some? <==> exists p :: p in files && Serves(component, p)
    ensures Detect(component, files).Some? ==> BestOf(component, files, Detect(component, files).value)
  {
    var candidates := Candidates(component);
    var j := FirstCandidateExactly(candidates, files);
    if j < |files| {
      assert files[j] in files && Serves(component, files[j]);
    } else if component == "documentation" {
      TextDetected(files);
    }
  }

  /** Every explicit entrypoint names a planned file of its component. */
  ghost predicate ExplicitOwned(o: Ownership, explicit: map<string, string>) {
    forall c :: c in explicit ==> c in o && TrimPrefix(explicit[c], "/") in o[c]
  }

  function EntrypointOf(o: Ownership, explicit: map<string, string>, c: string): Option<string>
    requires c in o
  {
    if c in explicit then Some(TrimPrefix(explicit[c], "/")) else Detect(c, o[c])
  }

  ghost function EntrypointsOf(o: Ownership, explicit: map<string, string>): map<string, string> {
    map c | c in o && EntrypointOf(o, explicit, c).Some? :: EntrypointOf(o, explicit, c).value
  }

  /** The first loop of ResolveEntrypoints: explicit values in any order. */
  method ResolveExplicit(o: Ownership, explicit: map<string, string>) returns (r: Option<map<string, string>>)
    ensures r.Some? <==> ExplicitOwned(o, explicit)
    ensures r.Some? ==> r.value == map c | c in explicit :: TrimPrefix(explicit[c], "/")
  {
    var result: map<string, string> := map[];
    var todo := explicit.Keys;
    while todo != {}
      invariant todo <= explicit.Keys && result.Keys == explicit.Keys - todo
      invariant forall c :: c in result ==>
                  c in o && result[c] == TrimPrefix(explicit[c], "/") && result[c] in o[c]
      decreases todo
    {
      var c :| c in todo;
      todo := todo - {c};
      var path := TrimPrefix(explicit[c], "/");
      if c !in o || path !in o[c] {
        return None;
      }
      result := result[c := path];
    }
    return Some(result);
  }

  /** ResolveEntrypoints: both maps in any order. None stands for an EntrypointError. */
  method ResolveEntrypoints(o: Ownership, explicit: map<string, string>)
    returns (r: Option<map<string, string>>)
    ensures r == if ExplicitOwned(o, explicit) then Some(EntrypointsOf(o, explicit)) else None
  {
    r := ResolveExplicit(o, explicit);
    if r.None? {
      return;
    }
    var result := r.value;
    var todo := o.Keys;
    while todo != {}
      invariant todo <= o.Keys
      invariant forall c :: c in result <==>
                  c in explicit || (c in o && c !in todo && EntrypointOf(o, explicit, c).Some?)
      invariant forall c :: c in result ==> c in o && Some(result[c]) == EntrypointOf(o, explicit, c)
      decreases todo
    {
      var c :| c in todo;
      todo := todo - {c};
      if c !in result {
        var detected := Detect(c, o[c]);
        if detected.Some? {
          result := result[c := detected.value];
        }
      }
    }
    assert result == EntrypointsOf(o, explicit);
    return Some(result);
  }

  /** ValidateBuildLocales accepts: keys are well formed, rule lists are not empty, and at most
      one locale is the default. */
  ghost predicate LocalesValid(x: Syntax, locales: map<string, LocaleRules>) {
    && (forall k :: k in locales ==> x.locale(k) && locales[k].paths != [])
    && (forall j, k :: j in locales && k in locales && locales[j].isDefault && locales[k].isDefault ==> j == k)
  }

  method ValidateBuildLocales(x: Syntax, locales: map<string, LocaleRules>) returns (ok: bool)
    ensures ok <==> LocalesValid(x, locales)
  {
    var defaults := 0;
    ghost var chosen := "";
    var todo := locales.Keys;
    while todo != {}
      invariant todo <= locales.Keys && 0 <= defaults <= 1
      invariant forall k :: k in locales && k !in todo ==> x.locale(k) && locales[k].paths != []
      invariant forall k :: k in locales && k !in todo && locales[k].isDefault ==> defaults == 1 && k == chosen
      invariant defaults == 1 ==> chosen in locales && chosen !in todo && locales[chosen].isDefault
      decreases todo
    {
      var k :| k in todo;
      if !x.locale(k) || locales[k].paths == [] {
        return false;
      }
      if locales[k].isDefault {
        defaults := defaults + 1;
      }
      if defaults > 1 {
        assert locales[k].isDefault && locales[chosen].isDefault && k != chosen;
        return false;
      }
      if locales[k].isDefault {
        chosen := k;
      }
      todo := todo - {k};
    }
    return true;
  }

  function DocumentsOf(x: Syntax, files: seq<string>): seq<string> {
    Sort(Filter(files, x.document))
  }

  /** The owned documents that the rules of a locale select, in order. */
  function LocaleFiles(x: Syntax, files: seq<string>, selects: string -> bool): seq<string> {
    Filter(DocumentsOf(x, files), selects)
  }

  lemma LocaleFilesMeaning(x: Syntax, files: seq<string>, selects: string -> bool)
    requires StrictlyAscending(files)
    ensures StrictlyAscending(LocaleFiles(x, files, selects))
    ensures forall p :: p in LocaleFiles(x, files, selects) <==> p in files && x.document(p) && selects(p)
  {
    FilterMeaning(files, x.document);
    SortedAlready(Filter(files, x.document));
    FilterMeaning(Filter(files, x.document), selects);
  }

  function FilesOrNone(o: Ownership, c: string): seq<string> {
    if c in o then o[c] else []
  }

  /** The documents of one locale, or None when its rules do not compile. */
  function Classify(x: Syntax, files: seq<string>, rules: LocaleRules): Option<seq<string>> {
    match x.compile(rules.paths)
    case None => None
    case Some(selects) => Some(LocaleFiles(x, files, selects))
  }

  ghost predicate Compiles(x: Syntax, locales: map<string, LocaleRules>) {
    forall k :: k in locales ==> x.compile(locales[k].paths).Some?
  }

  /** classified holds the documents of every locale of one component. */
  ghost predicate Classifies(x: Syntax, files: seq<string>, locales: map<string, LocaleRules>,
                             classified: map<string, seq<string>>)
  {
    classified.Keys == locales.Keys
    && forall k :: k in locales ==> Some(classified[k]) == Classify(x, files, locales[k])
  }

  method FilterFiles(files: seq<string>, keep: string -> bool) returns (kept: seq<string>)
    ensures kept == Filter(files, keep)
  {
    kept := [];
    var i := 0;
    while i < |files|
      invariant i <= |files| && kept == Filter(files[..i], keep)
    {
      FilterAppend(files[..i], files[i], keep);
      assert files[..i + 1] == files[..i] + [files[i]];
      if keep(files[i]) {
        kept := kept + [files[i]];
      }
      i := i + 1;
    }
    assert files[..i] == files;
  }

  method SortedDocuments(x: Syntax, files: seq<string>) returns (documents: seq<string>)
    ensures documents == DocumentsOf(x, files)
  {
    documents := FilterFiles(files, x.document);
    documents := Sort(documents);
  }

  /** Keys in ascending order, for a loop whose outcome does not depend on the order. */
  method KeysInOrder(xs: set<string>) returns (keys: seq<string>)
    ensures forall k :: k in keys <==> k in xs
  {
    keys := SortedKeys(xs);
    forall k ensures k in keys <==> k in xs { assert k in keys <==> k in Elements(keys); }
  }

  ghost predicate PartlyClassified(x: Syntax, files: seq<string>, locales: map<string, LocaleRules>,
                                   result: map<string, seq<string>>)
  {
    forall k :: k in result ==> k in locales && Some(result[k]) == Classify(x, files, locales[k])
  }

  method MatchLocale(x: Syntax, ghost files: seq<string>, documents: seq<string>, rules: LocaleRules)
    returns (r: Option<seq<string>>)
    requires documents == DocumentsOf(x, files)
    ensures r == Classify(x, files, rules)
  {
    var matcher := x.compile(rules.paths);
    if matcher.None? {
      return None;
    }
    var matches := FilterFiles(documents, matcher.value);
    return Some(matches);
  }

  method ClassifyComponent(x: Syntax, files: seq<string>, locales: map<string, LocaleRules>)
    returns (r: Option<map<string, seq<string>>>)
    ensures r.Some? <==> Compiles(x, locales)
    ensures r.Some? ==> Classifies(x, files, locales, r.value)
  {
    var documents := SortedDocuments(x, files);
    var keys := KeysInOrder(locales.Keys);
    var result: map<string, seq<string>> := map[];
    var i := 0;
    while i < |keys|
      invariant i <= |keys|
      invariant forall j :: 0 <= j < i ==> keys[j] in result
      invariant PartlyClassified(x, files, locales, result)
    {
      var k := keys[i];
      assert k in keys;
      var matches := MatchLocale(x, files, documents, locales[k]);
      if matches.None? {
        return None;
      }
      result := result[k := matches.value];
      i := i + 1;
    }
    assert result.Keys == locales.Keys;
    return Some(result);
  }

  ghost predicate AllCompile(x: Syntax, components: map<string, ComponentRules>) {
    forall c :: c in components ==> Compiles(x, components[c].locales)
  }

  type Classification = map<string, map<string, seq<string>>>

  /** classified holds the locales of every component that declares any. */
  ghost predicate ClassifiesAll(x: Syntax, components: map<string, ComponentRules>, o: Ownership,
                                classified: Classification)
  {
    && (forall c :: c in classified <==> c in components && components[c].locales.Keys != {})
    && (forall c :: c in classified ==> Classifies(x, FilesOrNone(o, c), components[c].locales, classified[c]))
  }

  /** ClassifyLocales: components in any order. None stands for rules that do not compile. */
  method ClassifyLocales(x: Syntax, components: map<string, ComponentRules>, o: Ownership)
    returns (r: Option<Classification>)
    ensures r.Some? <==> AllCompile(x, components)
    ensures r.Some? ==> ClassifiesAll(x, components, o, r.value)
  {
    var resolved: Classification := map[];
    var todo := components.Keys;
    while todo != {}
      invariant todo <= components.Keys
      invariant forall c :: c in components && c !in todo ==> Compiles(x, components[c].locales)
      invariant forall c :: c in resolved <==> c in components && c !in todo && components[c].locales.Keys != {}
      invariant forall c :: c in resolved ==> Classifies(x, FilesOrNone(o, c), components[c].locales, resolved[c])
      decreases todo
    {
      var c :| c in todo;
      todo := todo - {c};
      if components[c].locales.Keys != {} {
        var classified := ClassifyComponent(x, FilesOrNone(o, c), components[c].locales);
        if classified.None? {
          return None;
        }
        resolved := resolved[c := classified.value];
      }
    }
    return Some(resolved);
  }

  lemma SameLocales(x: Syntax, files: seq<string>, locales: map<string, LocaleRules>,
                    a: map<string, seq<string>>, b: map<string, seq<string>>)
    requires Classifies(x, files, locales, a) && Classifies(x, files, locales, b)
    ensures a == b
  {
    forall k | k in a ensures a[k] == b[k] {
      assert Some(a[k]) == Classify(x, files, locales[k]) == Some(b[k]);
    }
  }

  /** A classification is determined by the rules and the ownership alone. */
  lemma {:induction false} ClassificationUnique(x: Syntax, components: map<string, ComponentRules>, o: Ownership,
                                                a: Classification, b: Classification)
    requires ClassifiesAll(x, components, o, a) && ClassifiesAll(x, components, o, b)
    ensures a == b
  {
    assert a.Keys == b.Keys by {
      forall c ensures c in a <==> c in b {}
    }
    forall c | c in a ensures a[c] == b[c] {
      assert Classifies(x, FilesOrNone(o, c), components[c].locales, a[c]);
      SameLocales(x, FilesOrNone(o, c), components[c].locales, a[c], b[c]);
    }
  }
}
