/** Build planning (artifact/plan.go): ownership, dependencies, entrypoints, locales and
    warnings, from a merged build configuration. */
module Planning {
  import opened Prelude
  import opened ManagedAnnotations
  import opened BundlePath
  import opened PathTrie
  import opened SourceWalk
  import opened Discovery
  import Dependencies
  import OwnershipPlan
  import opened Entrypoints

  datatype Compression = Compression(kind: string, level: Option<int>)

  /** The effective build configuration; ignored is the compiled ignore list, None when it does
      not compile. */
  datatype BuildConfig = BuildConfig(
    schemaVersion: string,
    components: map<string, ComponentRules>,
    ignored: Option<string -> bool>,
    annotations: map<string, string>,
    document: string, variant: string,
    compression: Option<Compression>,
    strict: bool, embeddedDefault: bool)

  datatype Warning =
    | DependencyWarning(message: string)
    | EmptyComponent(component: string)
    | EmptyLocale(component: string, locale: string)

  type LocalePlans = map<string, map<string, LocalePlan>>

  datatype BuildPlan = BuildPlan(
    ownership: Ownership,
    entrypoints: map<string, string>,
    locales: LocalePlans,
    annotations: map<string, string>,
    document: string, variant: string,
    warnings: seq<Warning>)

  datatype PlanFailure =
    | InvalidConfig
    | InvalidRules
    | NotOwned(conflict: OwnershipPlan.PlanError)
    | NotDiscovered(dependency: Dependencies.DependencyError)
    | NothingMatched
    | InvalidEntrypoint
    | InvalidLocaleRules
    | InvalidLocaleEntrypoint
    | EmptyLocales
    | EmptyComponents(components: seq<string>)

  const DEFAULT_DOCUMENT := "default"

  /** A named compression is a supported one, and a given level is not negative. */
  predicate CompressionValid(c: Option<Compression>) {
    c.Some? ==>
      && c.value.kind in {"", "gzip", "zstd"}
      && (c.value.level.Some? ==> 0 <= c.value.level.value)
  }

  /** ValidateBuildConfig and ValidateUserAnnotations accept. */
  ghost predicate ConfigValid(x: Syntax, cfg: BuildConfig) {
    && cfg.schemaVersion == SCHEMA_VERSION
    && CompressionValid(cfg.compression)
    && cfg.components.Keys != {}
    && (forall c :: c in cfg.components ==>
          x.component(c) && cfg.components[c].paths != [] && LocalesValid(x, cfg.components[c].locales))
    && (forall k :: k in cfg.annotations ==> !(RESERVED_PREFIX <= k))
  }

  method ValidateUserAnnotations(annotations: map<string, string>) returns (ok: bool)
    ensures ok <==> forall k :: k in annotations ==> !(RESERVED_PREFIX <= k)
  {
    var todo := annotations.Keys;
    while todo != {}
      invariant todo <= annotations.Keys
      invariant forall k :: k in annotations && k !in todo ==> !(RESERVED_PREFIX <= k)
      decreases todo
    {
      var k :| k in todo;
      todo := todo - {k};
      if RESERVED_PREFIX <= k {
        return false;
      }
    }
    return true;
  }

  method ValidateBuildConfig(x: Syntax, cfg: BuildConfig) returns (ok: bool)
    ensures ok <==> ConfigValid(x, cfg)
  {
    if cfg.schemaVersion == "" || cfg.schemaVersion != SCHEMA_VERSION || cfg.components.Keys == {} {
      return false;
    }
    var todo := cfg.components.Keys;
    while todo != {}
      invariant todo <= cfg.components.Keys
      invariant forall c :: c in cfg.components && c !in todo ==>
                  x.component(c) && cfg.components[c].paths != [] && LocalesValid(x, cfg.components[c].locales)
      decreases todo
    {
      var c :| c in todo;
      todo := todo - {c};
      if !x.component(c) || cfg.components[c].paths == [] {
        return false;
      }
      var valid := ValidateBuildLocales(x, cfg.components[c].locales);
      if !valid {
        return false;
      }
    }
    ok := ValidateUserAnnotations(cfg.annotations);
    if ok && cfg.compression.Some? {
      var compression := cfg.compression.value;
      if compression.kind != "" && compression.kind != "gzip" && compression.kind != "zstd" {
        return false;
      }
      if compression.level.Some? && compression.level.value < 0 {
        return false;
      }
    }
  }

  /** The compiled rules of all components. */
  ghost function MatchersOf(x: Syntax, components: map<string, ComponentRules>): OwnershipPlan.Matchers {
    map c | c in components && x.compile(components[c].paths).Some? :: x.compile(components[c].paths).value
  }

  ghost predicate RulesCompile(x: Syntax, components: map<string, ComponentRules>) {
    forall c :: c in components ==> x.compile(components[c].paths).Some?
  }

  /** Compile (internal/pathplan/matchers.go). */
  method Compile(x: Syntax, components: map<string, ComponentRules>) returns (r: Option<OwnershipPlan.Matchers>)
    ensures r == if RulesCompile(x, components) then Some(MatchersOf(x, components)) else None
  {
    var m: OwnershipPlan.Matchers := map[];
    var todo := components.Keys;
    while todo != {}
      invariant todo <= components.Keys
      invariant forall c :: c in m <==> c in components && c !in todo
      invariant forall c :: c in m ==> x.compile(components[c].paths) == Some(m[c])
      decreases todo
    {
      var c :| c in todo;
      todo := todo - {c};
      var matcher := x.compile(components[c].paths);
      if matcher.None? {
        return None;
      }
      m := m[c := matcher.value];
    }
    assert m == MatchersOf(x, components);
    return Some(m);
  }

  function ExplicitEntrypoints(components: map<string, ComponentRules>): map<string, string> {
    map c | c in components && components[c].entrypoint != "" :: components[c].entrypoint
  }

  /** The rules of a locale; Go's zero value when it is not declared. */
  function RulesAt(rules: map<string, LocaleRules>, k: string): LocaleRules {
    if k in rules then rules[k] else LocaleRules([], false, "")
  }

  /** The first default locale in key order, or the first key. */
  function DefaultLocale(keys: seq<string>, rules: map<string, LocaleRules>): (k: string)
    requires keys != []
    ensures k in keys
    ensures (exists x :: x in keys && RulesAt(rules, x).isDefault) ==> RulesAt(rules, k).isDefault
  {
    var found := FirstWhere(keys, k => RulesAt(rules, k).isDefault);
    if found.Some? then found.value else keys[0]
  }

  /** The plan of one locale, or None when its explicit entrypoint is not among its documents. */
  function PlanLocale(component: string, rules: LocaleRules, entrypoints: map<string, string>,
                      paths: seq<string>, isDefault: bool): Option<LocalePlan>
  {
    var explicit := TrimPrefix(rules.entrypoint, "/");
    if paths == [] then Some(LocalePlan(isDefault, "", paths))
    else if explicit != "" then
      if explicit in paths then Some(LocalePlan(isDefault, explicit, paths)) else None
    else if component in entrypoints && entrypoints[component] in paths && entrypoints[component] != "" then
      Some(LocalePlan(isDefault, entrypoints[component], paths))
    else
      var detected := Detect(component, paths);
      Some(LocalePlan(isDefault, if detected.Some? then detected.value else "", paths))
  }

  ghost predicate IsLeast(xs: set<string>, k: string) {
    k in xs && forall x :: x in xs ==> Le(k, x)
  }

  ghost function Least(xs: set<string>): string {
    if k :| IsLeast(xs, k) then k else ""
  }

  ghost function Preferred(locales: map<string, seq<string>>, rules: map<string, LocaleRules>): set<string> {
    set k | k in locales && RulesAt(rules, k).isDefault
  }

  /** The locale that serves as the fallback: the least one marked as default, else the least. */
  ghost function Default(locales: map<string, seq<string>>, rules: map<string, LocaleRules>): string {
    if Preferred(locales, rules) == {} then Least(locales.Keys) else Least(Preferred(locales, rules))
  }

  lemma LeastIs(xs: set<string>, k: string)
    requires IsLeast(xs, k)
    ensures Least(xs) == k
  {
    LeAntisymmetric(Least(xs), k);
  }

  lemma {:induction false} FirstIsLeast(keys: seq<string>, test: string -> bool)
    requires StrictlyAscending(keys)
    ensures FirstWhere(keys, test).Some? ==>
              IsLeast((set k | k in keys && test(k)), FirstWhere(keys, test).value)
  {
    if keys != [] {
      if test(keys[0]) {
        forall x | x in keys ensures Le(keys[0], x) {
          var i :| 0 <= i < |keys| && keys[i] == x;
          LeRefl(keys[0]);
          assert i > 0 ==> Lt(keys[0], keys[i]);
        }
      } else {
        FirstIsLeast(keys[1..], test);
        assert (set k | k in keys && test(k)) == set k | k in keys[1..] && test(k);
      }
    }
  }

  lemma DefaultFromKeys(locales: map<string, seq<string>>, rules: map<string, LocaleRules>, keys: seq<string>)
    requires Lists(keys, locales.Keys) && keys != []
    ensures DefaultLocale(keys, rules) == Default(locales, rules)
  {
    var test := (k: string) => RulesAt(rules, k).isDefault;
    FirstIsLeast(keys, test);
    assert forall k :: k in keys <==> k in Elements(keys);
    assert Preferred(locales, rules) == set k | k in keys && test(k);
    var found := FirstWhere(keys, test);
    if found.Some? {
      LeastIs(Preferred(locales, rules), found.value);
    } else {
      forall x | x in locales.Keys ensures Le(keys[0], x) {
        var i :| 0 <= i < |keys| && keys[i] == x;
        LeRefl(keys[0]);
        assert i > 0 ==> Lt(keys[0], keys[i]);
      }
      LeastIs(locales.Keys, keys[0]);
    }
  }

  predicate HasLocales(locales: map<string, seq<string>>) {
    exists k :: k in locales
  }

  /** The plan of one locale of a component whose default locale is given. */
  function PlanOf(component: string, rules: map<string, LocaleRules>, entrypoints: map<string, string>,
                  locales: map<string, seq<string>>, defaultLocale: string, k: string): Option<LocalePlan>
    requires k in locales
  {
    PlanLocale(component, RulesAt(rules, k), entrypoints, locales[k], k == defaultLocale)
  }

  ghost predicate Plannable(component: string, rules: map<string, LocaleRules>, entrypoints: map<string, string>,
                            locales: map<string, seq<string>>)
  {
    forall k :: k in locales ==> PlanOf(component, rules, entrypoints, locales, Default(locales, rules), k).Some?
  }

  /** plans holds the plan of every locale of one component. */
  ghost predicate Plans(component: string, rules: map<string, LocaleRules>, entrypoints: map<string, string>,
                        locales: map<string, seq<string>>, plans: map<string, LocalePlan>)
  {
    && (forall k :: k in plans <==> k in locales)
    && (forall k :: k in plans ==>
          Some(plans[k]) == PlanOf(component, rules, entrypoints, locales, Default(locales, rules), k))
  }

  /** w reports a locale of the component without documents. */
  predicate ReportsEmpty(component: string, locales: map<string, seq<string>>, w: Warning) {
    w.EmptyLocale? && w.component == component && w.locale in locales && locales[w.locale] == []
  }

  lemma DistinctKeys(xs: set<string>)
    ensures Distinct(Listing(xs))
  {
    ListingLists(xs);
    StrictIsDistinct(Listing(xs));
  }

  method PlanKeys(component: string, rules: map<string, LocaleRules>, entrypoints: map<string, string>,
                  locales: map<string, seq<string>>, keys: seq<string>, defaultLocale: string)
    returns (r: Option<map<string, LocalePlan>>, warnings: seq<Warning>)
    requires Distinct(keys) && forall k :: k in keys <==> k in locales
    ensures r.Some? <==>
              forall k :: k in locales ==> PlanOf(component, rules, entrypoints, locales, defaultLocale, k).Some?
    ensures r.Some? ==> forall k :: k in r.value <==> k in locales
    ensures r.Some? ==> forall k :: k in r.value ==>
              Some(r.value[k]) == PlanOf(component, rules, entrypoints, locales, defaultLocale, k)
    ensures r.Some? ==> Distinct(warnings) && forall w :: w in warnings <==> ReportsEmpty(component, locales, w)
  {
    var plans: map<string, LocalePlan> := map[];
    warnings := [];
    var i := 0;
    while i < |keys|
      invariant i <= |keys|
      invariant forall j :: 0 <= j < i ==> keys[j] in plans
      invariant forall k :: k in plans ==>
                  k in locales && Some(plans[k]) == PlanOf(component, rules, entrypoints, locales, defaultLocale, k)
      invariant forall j :: i <= j < |keys| ==> keys[j] !in plans
      invariant Distinct(warnings)
      invariant forall w :: w in warnings <==> ReportsEmpty(component, locales, w) && w.locale in plans
    {
      var k := keys[i];
      assert k in keys;
      var plan := PlanOf(component, rules, entrypoints, locales, defaultLocale, k);
      if plan.None? {
        return None, [];
      }
      if locales[k] == [] {
        assert EmptyLocale(component, k) !in warnings;
        warnings := warnings + [EmptyLocale(component, k)];
      }
      plans := plans[k := plan.value];
      i := i + 1;
    }
    return Some(plans), warnings;
  }

  /** The body of resolveLocalePlans for one component. */
  method PlanComponent(component: string, rules: map<string, LocaleRules>, entrypoints: map<string, string>,
                       locales: map<string, seq<string>>)
    returns (r: Option<map<string, LocalePlan>>, warnings: seq<Warning>)
    requires HasLocales(locales)
    ensures r.Some? <==> Plannable(component, rules, entrypoints, locales)
    ensures r.Some? ==> Plans(component, rules, entrypoints, locales, r.value)
    ensures r.Some? ==> Distinct(warnings) && forall w :: w in warnings <==> ReportsEmpty(component, locales, w)
  {
    var keys := SortedKeys(locales.Keys);
    ListingMembers(locales.Keys);
    DistinctKeys(locales.Keys);
    DefaultFromKeys(locales, rules, keys);
    r, warnings := PlanKeys(component, rules, entrypoints, locales, keys, DefaultLocale(keys, rules));
  }

  function DeclaredLocales(components: map<string, ComponentRules>, c: string): map<string, LocaleRules> {
    if c in components then components[c].locales else map[]
  }

  /** What resolveLocalePlans makes of one classified component. */
  ghost predicate ComponentPlanned(components: map<string, ComponentRules>, entrypoints: map<string, string>,
                                   cls: Classification, c: string, plans: map<string, LocalePlan>)
    requires c in cls
  {
    Plans(c, DeclaredLocales(components, c), entrypoints, cls[c], plans)
  }

  ghost predicate ComponentPlannable(components: map<string, ComponentRules>, entrypoints: map<string, string>,
                                     cls: Classification, c: string)
    requires c in cls
  {
    Plannable(c, DeclaredLocales(components, c), entrypoints, cls[c])
  }

  ghost predicate AllPlannable(components: map<string, ComponentRules>, entrypoints: map<string, string>,
                               cls: Classification)
  {
    forall c :: c in cls ==> ComponentPlannable(components, entrypoints, cls, c)
  }

  /** The components of done are planned, those without locales left out. */
  ghost predicate PlannedSoFar(components: map<string, ComponentRules>, entrypoints: map<string, string>,
                               cls: Classification, done: set<string>, plans: LocalePlans)
  {
    && (forall c :: c in done ==> c in cls && ComponentPlannable(components, entrypoints, cls, c))
    && (forall c :: c in plans <==> c in cls && c in done && HasLocales(cls[c]))
    && (forall c :: c in plans ==> ComponentPlanned(components, entrypoints, cls, c, plans[c]))
  }

  ghost predicate PlansAll(components: map<string, ComponentRules>, entrypoints: map<string, string>,
                           cls: Classification, plans: LocalePlans)
  {
    PlannedSoFar(components, entrypoints, cls, cls.Keys, plans)
  }

  /** warnings reports the empty locales of one component, once each. */
  ghost predicate Reports(cls: Classification, c: string, warnings: seq<Warning>)
    requires c in cls
  {
    Distinct(warnings) && forall w :: w in warnings <==> ReportsEmpty(c, cls[c], w)
  }

  method PlanOne(components: map<string, ComponentRules>, entrypoints: map<string, string>, cls: Classification,
                 c: string)
    returns (r: Option<map<string, LocalePlan>>, warnings: seq<Warning>)
    requires c in cls
    ensures r.Some? <==> ComponentPlannable(components, entrypoints, cls, c)
    ensures r.Some? ==> ComponentPlanned(components, entrypoints, cls, c, r.value)
    ensures r.Some? ==> Reports(cls, c, warnings)
  {
    if !HasLocales(cls[c]) {
      return Some(map[]), [];
    }
    r, warnings := PlanComponent(c, DeclaredLocales(components, c), entrypoints, cls[c]);
  }

  predicate ReportsEmptyIn(cls: Classification, w: Warning) {
    w.EmptyLocale? && w.component in cls && ReportsEmpty(w.component, cls[w.component], w)
  }

  lemma PlanMore(components: map<string, ComponentRules>, entrypoints: map<string, string>, cls: Classification,
                 done: set<string>, plans: LocalePlans, c: string, planned: map<string, LocalePlan>)
    requires PlannedSoFar(components, entrypoints, cls, done, plans) && c in cls && c !in done
    requires ComponentPlannable(components, entrypoints, cls, c)
    requires ComponentPlanned(components, entrypoints, cls, c, planned)
    ensures PlannedSoFar(components, entrypoints, cls, done + {c},
                         if HasLocales(cls[c]) then plans[c := planned] else plans)
  {
    var next := if HasLocales(cls[c]) then plans[c := planned] else plans;
    forall d | d in next ensures ComponentPlanned(components, entrypoints, cls, d, next[d]) {
      if d != c { assert d in plans; }
    }
  }

  /** warnings reports the empty locales of the given components, once each. */
  ghost predicate Warned(cls: Classification, components: set<string>, warnings: seq<Warning>) {
    Distinct(warnings) && forall w :: w in warnings <==> ReportsEmptyIn(cls, w) && w.component in components
  }

  lemma WarnMore(cls: Classification, done: set<string>, c: string, warnings: seq<Warning>, more: seq<Warning>)
    requires Warned(cls, done, warnings) && c in cls && c !in done
    requires Reports(cls, c, more)
    ensures Warned(cls, done + {c}, warnings + more)
  {
    DistinctConcat(warnings, more);
  }

  /** resolveLocalePlans: components in any order, so that its warnings agree as a multiset. */
  method ResolveLocalePlans(x: Syntax, components: map<string, ComponentRules>, entrypoints: map<string, string>,
                            cls: Classification)
    returns (r: Option<LocalePlans>, warnings: seq<Warning>)
    ensures r.Some? <==> AllPlannable(components, entrypoints, cls)
    ensures r.Some? ==> PlansAll(components, entrypoints, cls, r.value)
    ensures r.Some? ==> Warned(cls, cls.Keys, warnings)
  {
    var plans: LocalePlans := map[];
    warnings := [];
    var todo := cls.Keys;
    ghost var done: set<string> := {};
    while todo != {}
      invariant todo <= cls.Keys && done == cls.Keys - todo
      invariant PlannedSoFar(components, entrypoints, cls, done, plans)
      invariant Warned(cls, done, warnings)
      decreases todo
    {
      var c :| c in todo;
      var planned, more := PlanOne(components, entrypoints, cls, c);
      if planned.None? {
        return None, [];
      }
      WarnMore(cls, done, c, warnings, more);
      warnings := warnings + more;
      PlanMore(components, entrypoints, cls, done, plans, c, planned.value);
      if HasLocales(cls[c]) {
        plans := plans[c := planned.value];
      }
      todo := todo - {c};
      done := done + {c};
    }
    assert done == cls.Keys;
    return Some(plans), warnings;
  }

  /** The declared components without a file. */
  ghost function EmptyOnes(components: map<string, ComponentRules>, o: Ownership): set<string> {
    set c | c in components && FilesOrNone(o, c) == []
  }

  function EmptyWarnings(names: seq<string>): seq<Warning> {
    seq(|names|, i requires 0 <= i < |names| => EmptyComponent(names[i]))
  }

  /** emptyComponentWarnings. */
  method EmptyComponentWarnings(components: map<string, ComponentRules>, o: Ownership, strict: bool,
                                embeddedDefault: bool)
    returns (r: Result<seq<Warning>, seq<string>>)
    ensures var empty := EmptyOnes(components, o);
            r == if empty == {} then Ok([])
                 else if strict then Err(Listing(empty))
                 else if embeddedDefault then Ok([])
                 else Ok(EmptyWarnings(Listing(empty)))
  {
    var empty: set<string> := {};
    var todo := components.Keys;
    while todo != {}
      invariant todo <= components.Keys
      invariant empty == set c | c in components && c !in todo && FilesOrNone(o, c) == []
      decreases todo
    {
      var c :| c in todo;
      todo := todo - {c};
      if |FilesOrNone(o, c)| == 0 {
        empty := empty + {c};
      }
    }
    assert empty == EmptyOnes(components, o);
    if empty == {} {
      return Ok([]);
    }
    var names := SortedKeys(empty);
    if strict {
      return Err(names);
    }
    if embeddedDefault {
      return Ok([]);
    }
    return Ok(EmptyWarnings(names));
  }

  /** A build: the source tree for the walk and for discovery, the path rules, and the merged
      configuration. */
  datatype Inputs = Inputs(
    dirs: map<nat, seq<Child>>, root: nat, rules: Rules,
    world: Dependencies.World, x: Syntax, cfg: BuildConfig)

  type Outcome = Result<BuildPlan, PlanFailure>

  function DependencyWarnings(messages: seq<string>): seq<Warning> {
    seq(|messages|, i requires 0 <= i < |messages| => DependencyWarning(messages[i]))
  }

  /** The warnings on empty components; strict builds fail instead. */
  ghost function ComponentWarnings(cfg: BuildConfig, o: Ownership): seq<Warning> {
    if cfg.embeddedDefault then [] else EmptyWarnings(Listing(EmptyOnes(cfg.components, o)))
  }

  /** The parts of a plan that every map order agrees on. */
  ghost predicate IsBuildPlan(i: Inputs, o: Ownership, messages: seq<string>, cls: Classification, plan: BuildPlan) {
    var first := DependencyWarnings(messages) + ComponentWarnings(i.cfg, o);
    && plan.ownership == o
    && plan.entrypoints == EntrypointsOf(o, ExplicitEntrypoints(i.cfg.components))
    && PlansAll(i.cfg.components, plan.entrypoints, cls, plan.locales)
    && plan.annotations == i.cfg.annotations && plan.variant == i.cfg.variant
    && plan.document == (if i.cfg.document == "" then DEFAULT_DOCUMENT else i.cfg.document)
    && |first| <= |plan.warnings| && plan.warnings[..|first|] == first
    && Warned(cls, cls.Keys, plan.warnings[|first|..])
  }

  ghost predicate AnyEmptyLocale(cls: Classification) {
    exists w :: ReportsEmptyIn(cls, w)
  }

  /** From the classified locales on. */
  ghost predicate IsPlanWith(i: Inputs, o: Ownership, messages: seq<string>, cls: Classification, r: Outcome) {
    var entrypoints := EntrypointsOf(o, ExplicitEntrypoints(i.cfg.components));
    if !AllPlannable(i.cfg.components, entrypoints, cls) then r == Err(InvalidLocaleEntrypoint)
    else if i.cfg.strict && AnyEmptyLocale(cls) then r == Err(EmptyLocales)
    else if i.cfg.strict && EmptyOnes(i.cfg.components, o) != {} then
      r == Err(EmptyComponents(Listing(EmptyOnes(i.cfg.components, o))))
    else r.Ok? && IsBuildPlan(i, o, messages, cls, r.value)
  }

  ghost predicate PlannedWith(i: Inputs, o: Ownership, messages: seq<string>, cls: Classification, r: Outcome) {
    ClassifiesAll(i.x, i.cfg.components, o, cls) && IsPlanWith(i, o, messages, cls, r)
  }

  /** From the final ownership on. */
  ghost predicate IsPlanOf(i: Inputs, o: Ownership, messages: seq<string>, r: Outcome) {
    if o.Keys == {} then r == Err(NothingMatched)
    else if !ExplicitOwned(o, ExplicitEntrypoints(i.cfg.components)) then r == Err(InvalidEntrypoint)
    else if !AllCompile(i.x, i.cfg.components) then r == Err(InvalidLocaleRules)
    else exists cls :: PlannedWith(i, o, messages, cls, r)
  }

  /** r is an outcome of planning: the checks in the order the program makes them. */
  ghost predicate IsPlan(i: Inputs, r: Outcome) {
    if !ConfigValid(i.x, i.cfg) then r == Err(InvalidConfig)
    else if i.cfg.ignored.None? || !RulesCompile(i.x, i.cfg.components) then r == Err(InvalidRules)
    else
      var ignored := i.cfg.ignored.value;
      match OwnershipPlan.Planned(i.dirs, i.root, i.rules, MatchersOf(i.x, i.cfg.components), ignored)
      case Err(e) => r == Err(NotOwned(e))
      case Ok(owned) =>
        match Discovered(i.world.(ignored := ignored), i.rules, owned, i.cfg.strict)
        case Err(e) => r == Err(NotDiscovered(e))
        case Ok((o, messages)) => IsPlanOf(i, o, messages, r)
  }

  lemma AnyWarning(cls: Classification, warnings: seq<Warning>)
    requires Warned(cls, cls.Keys, warnings)
    ensures warnings != [] <==> AnyEmptyLocale(cls)
  {
    if warnings != [] { assert warnings[0] in warnings; }
    if w :| ReportsEmptyIn(cls, w) { assert w in warnings; }
  }

  lemma {:induction false} NoWarnings(cfg: BuildConfig, o: Ownership)
    ensures EmptyOnes(cfg.components, o) == {} ==> ComponentWarnings(cfg, o) == []
  {
    var names := Listing(EmptyOnes(cfg.components, o));
    ListingLists(EmptyOnes(cfg.components, o));
    StrictIsDistinct(names);
    DistinctCount(names);
  }

  method PlanClassified(i: Inputs, o: Ownership, messages: seq<string>, entrypoints: map<string, string>,
                        locales: Classification)
    returns (r: Outcome)
    requires entrypoints == EntrypointsOf(o, ExplicitEntrypoints(i.cfg.components))
    ensures IsPlanWith(i, o, messages, locales, r)
  {
    var plans, localeWarnings := ResolveLocalePlans(i.x, i.cfg.components, entrypoints, locales);
    if plans.None? {
      return Err(InvalidLocaleEntrypoint);
    }
    AnyWarning(locales, localeWarnings);
    if i.cfg.strict && localeWarnings != [] {
      return Err(EmptyLocales);
    }
    var empty := EmptyComponentWarnings(i.cfg.components, o, i.cfg.strict, i.cfg.embeddedDefault);
    if empty.Err? {
      return Err(EmptyComponents(empty.error));
    }
    var first := DependencyWarnings(messages) + empty.value;
    var warnings := first + localeWarnings;
    assert warnings[..|first|] == first && warnings[|first|..] == localeWarnings;
    NoWarnings(i.cfg, o);
    return Ok(BuildPlan(o, entrypoints, plans.value, i.cfg.annotations,
                        if i.cfg.document == "" then DEFAULT_DOCUMENT else i.cfg.document, i.cfg.variant, warnings));
  }

  /** The last part of Plan, on the final ownership. */
  method PlanOwned(i: Inputs, o: Ownership, messages: seq<string>) returns (r: Outcome)
    ensures IsPlanOf(i, o, messages, r)
  {
    if o.Keys == {} {
      return Err(NothingMatched);
    }
    var explicit := ExplicitEntrypoints(i.cfg.components);
    var entrypoints := ResolveEntrypoints(o, explicit);
    if entrypoints.None? {
      return Err(InvalidEntrypoint);
    }
    var locales := ClassifyLocales(i.x, i.cfg.components, o);
    if locales.None? {
      return Err(InvalidLocaleRules);
    }
    r := PlanClassified(i, o, messages, entrypoints.value, locales.value);
    assert PlannedWith(i, o, messages, locales.value, r);
  }

  /** Plan. */
  method Plan(i: Inputs) returns (r: Outcome)
    requires Sensible(i.rules) && OwnershipPlan.ProperTree(i.dirs, i.rules)
    ensures IsPlan(i, r)
  {
    var valid := ValidateBuildConfig(i.x, i.cfg);
    if !valid {
      return Err(InvalidConfig);
    }
    var m := Compile(i.x, i.cfg.components);
    if i.cfg.ignored.None? || m.None? {
      return Err(InvalidRules);
    }
    var owned := OwnershipPlan.PlanContext(i.dirs, i.root, i.rules, m.value, i.cfg.ignored.value);
    if owned.Err? {
      return Err(NotOwned(owned.error));
    }
    OwnershipPlan.PlannedIsSound(i.dirs, i.root, i.rules, m.value, i.cfg.ignored.value);
    var world := i.world.(ignored := i.cfg.ignored.value);
    var discovered := DiscoverDependencies(world, i.rules, owned.value, i.cfg.strict);
    if discovered.Err? {
      return Err(NotDiscovered(discovered.error));
    }
    r := PlanOwned(i, discovered.value.0, discovered.value.1);
  }

  /** Equal errors, or plans that agree up to the order of the locale warnings. */
  predicate Agree(r: Outcome, s: Outcome) {
    && (r.Err? || s.Err? ==> r == s)
    && (r.Ok? && s.Ok? ==>
          && r.value.(warnings := []) == s.value.(warnings := [])
          && multiset(r.value.warnings) == multiset(s.value.warnings))
  }

  lemma SamePlans(c: string, rules: map<string, LocaleRules>, entrypoints: map<string, string>,
                  locales: map<string, seq<string>>, a: map<string, LocalePlan>, b: map<string, LocalePlan>)
    requires Plans(c, rules, entrypoints, locales, a) && Plans(c, rules, entrypoints, locales, b)
    ensures a == b
  {
    assert forall k :: k in a <==> k in b;
    forall k | k in a ensures a[k] == b[k] {
      assert Some(a[k]) == PlanOf(c, rules, entrypoints, locales, Default(locales, rules), k) == Some(b[k]);
    }
  }

  lemma {:induction false} PlansUnique(x: Syntax, components: map<string, ComponentRules>,
                                       entrypoints: map<string, string>, cls: Classification,
                                       a: LocalePlans, b: LocalePlans)
    requires PlansAll(components, entrypoints, cls, a) && PlansAll(components, entrypoints, cls, b)
    ensures a == b
  {
    assert a.Keys == b.Keys by {
      forall c ensures c in a <==> c in b {}
    }
    forall c | c in a ensures a[c] == b[c] {
      assert ComponentPlanned(components, entrypoints, cls, c, a[c]);
      assert ComponentPlanned(components, entrypoints, cls, c, b[c]);
      SamePlans(c, DeclaredLocales(components, c), entrypoints, cls[c], a[c], b[c]);
    }
  }

  lemma WarningsAgree(cls: Classification, a: seq<Warning>, b: seq<Warning>)
    requires Warned(cls, cls.Keys, a) && Warned(cls, cls.Keys, b)
    ensures multiset(a) == multiset(b)
  {
    DistinctMultiset(a);
    DistinctMultiset(b);
    forall w ensures multiset(a)[w] == multiset(b)[w] {
      assert w in a <==> w in b;
      assert multiset(a)[w] <= 1 && multiset(b)[w] <= 1;
      assert w in multiset(a) <==> w in multiset(b);
    }
  }

  lemma ClassifiedDeterministic(i: Inputs, o: Ownership, messages: seq<string>, cls: Classification,
                                r: Outcome, s: Outcome)
    requires IsPlanWith(i, o, messages, cls, r) && IsPlanWith(i, o, messages, cls, s)
    ensures Agree(r, s)
  {
    if r.Ok? {
      var first := DependencyWarnings(messages) + ComponentWarnings(i.cfg, o);
      PlansUnique(i.x, i.cfg.components, r.value.entrypoints, cls, r.value.locales, s.value.locales);
      WarningsAgree(cls, r.value.warnings[|first|..], s.value.warnings[|first|..]);
      assert r.value.warnings == first + r.value.warnings[|first|..];
      assert s.value.warnings == first + s.value.warnings[|first|..];
    }
  }

  lemma OwnedDeterministic(i: Inputs, o: Ownership, messages: seq<string>, r: Outcome, s: Outcome)
    requires IsPlanOf(i, o, messages, r) && IsPlanOf(i, o, messages, s)
    ensures Agree(r, s)
  {
    if o.Keys != {} && ExplicitOwned(o, ExplicitEntrypoints(i.cfg.components)) && AllCompile(i.x, i.cfg.components) {
      var a :| PlannedWith(i, o, messages, a, r);
      var b :| PlannedWith(i, o, messages, b, s);
      ClassificationUnique(i.x, i.cfg.components, o, a, b);
      ClassifiedDeterministic(i, o, messages, a, r, s);
    }
  }

  /** Every order of map iteration leads to the same outcome: the same error, or plans that agree
      in everything but the order of the locale warnings, which agree as a multiset. */
  lemma PlanDeterministic(i: Inputs, r: Outcome, s: Outcome)
    requires IsPlan(i, r) && IsPlan(i, s)
    ensures Agree(r, s)
  {
    if ConfigValid(i.x, i.cfg) && i.cfg.ignored.Some? && RulesCompile(i.x, i.cfg.components) {
      var ignored := i.cfg.ignored.value;
      var owned := OwnershipPlan.Planned(i.dirs, i.root, i.rules, MatchersOf(i.x, i.cfg.components), ignored);
      if owned.Ok? {
        var found := Discovered(i.world.(ignored := ignored), i.rules, owned.value, i.cfg.strict);
        if found.Ok? {
          OwnedDeterministic(i, found.value.0, found.value.1, r, s);
        }
      }
    }
  }
}
