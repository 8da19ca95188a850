/** What an accepted plan chooses, told on the configuration and the owned files: entrypoints,
    locales with their documents and the default one, annotations, and warnings
    (artifact/plan.go, internal/pathplan/entrypoint.go). */
module PlanChoices {
  import opened Prelude
  import opened Discovery
  import opened Entrypoints
  import opened Planning
  import opened PlanTheory
  import OwnershipPlan

  /** path without the one leading slash of an entrypoint that is written from the root. */
  function Unrooted(path: string): string {
    if path != "" && path[0] == '/' then path[1..] else path
  }

  /** The entrypoint of c is the declared one, or else the best of its files, if one serves. */
  ghost predicate EntrypointChosen(cfg: BuildConfig, plan: BuildPlan, c: string)
    requires c in plan.ownership
  {
    var declared := if c in cfg.components then cfg.components[c].entrypoint else "";
    if declared != "" then c in plan.entrypoints && plan.entrypoints[c] == Unrooted(declared)
    else
      && (c in plan.entrypoints <==> exists p :: p in plan.ownership[c] && Serves(c, p))
      && (c in plan.entrypoints ==> BestOf(c, plan.ownership[c], plan.entrypoints[c]))
  }

  /** The entrypoint of a locale is the declared one, or else the component's if it is among the
      documents of the locale, or else the best of them, if one serves. */
  ghost predicate LocaleEntrypointChosen(c: string, declared: string, component: Option<string>, l: LocalePlan) {
    if l.paths == [] then l.entrypoint == ""
    else if declared != "" && declared != "/" then l.entrypoint == Unrooted(declared) && l.entrypoint in l.paths
    else if component.Some? && component.value != "" && component.value in l.paths then l.entrypoint == component.value
    else if exists p :: p in l.paths && Serves(c, p) then BestOf(c, l.paths, l.entrypoint)
    else l.entrypoint == ""
  }

  /** The default is the least locale that is marked as default, or the least one of all. */
  ghost predicate DefaultChosen(rules: map<string, LocaleRules>, plans: map<string, LocalePlan>, k: string)
    requires plans.Keys <= rules.Keys && k in plans
  {
    plans[k].isDefault <==>
    if exists j :: j in plans && rules[j].isDefault
    then rules[k].isDefault && forall j :: j in plans && rules[j].isDefault ==> Le(k, j)
    else forall j :: j in plans ==> Le(k, j)
  }

  /** A locale holds the component's documents that its rules select. */
  ghost predicate DocumentsChosen(x: Syntax, files: seq<string>, rules: LocaleRules, l: LocalePlan) {
    && x.compile(rules.paths).Some? && StrictlyAscending(l.paths)
    && forall p :: p in l.paths <==> p in files && x.document(p) && x.compile(rules.paths).value(p)
  }

  /** Everything about one locale of the plan. */
  ghost predicate LocaleChosen(i: Inputs, plan: BuildPlan, c: string, k: string)
    requires c in plan.locales && k in plan.locales[c]
  {
    && c in i.cfg.components && plan.locales[c].Keys == i.cfg.components[c].locales.Keys
    && var rules, l := i.cfg.components[c].locales, plan.locales[c][k];
       && DocumentsChosen(i.x, FilesOrNone(plan.ownership, c), rules[k], l)
       && DefaultChosen(rules, plan.locales[c], k)
       && LocaleEntrypointChosen(c, rules[k].entrypoint,
                                 if c in plan.entrypoints then Some(plan.entrypoints[c]) else None, l)
  }

  lemma EntrypointsChosen(i: Inputs, plan: BuildPlan, c: string)
    requires ExplicitOwned(plan.ownership, ExplicitEntrypoints(i.cfg.components)) && c in plan.ownership
    requires plan.entrypoints == EntrypointsOf(plan.ownership, ExplicitEntrypoints(i.cfg.components))
    ensures EntrypointChosen(i.cfg, plan, c)
  {
    DetectExactly(c, plan.ownership[c]);
  }

  lemma OneLocaleEntrypoint(c: string, rules: LocaleRules, entrypoints: map<string, string>, paths: seq<string>,
                            isDefault: bool)
    ensures var plan := PlanLocale(c, rules, entrypoints, paths, isDefault);
            && (plan.None? <==> && paths != [] && rules.entrypoint != "" && rules.entrypoint != "/"
                                && Unrooted(rules.entrypoint) !in paths)
            && (plan.Some? ==>
                  && plan.value.isDefault == isDefault && plan.value.paths == paths
                  && LocaleEntrypointChosen(c, rules.entrypoint,
                                            if c in entrypoints then Some(entrypoints[c]) else None, plan.value))
  {
    DetectExactly(c, paths);
  }

  lemma DefaultMeans(locales: map<string, seq<string>>, rules: map<string, LocaleRules>, k: string)
    requires locales.Keys == rules.Keys && k in locales
    ensures k == Default(locales, rules) <==>
            if exists j :: j in locales && rules[j].isDefault
            then rules[k].isDefault && forall j :: j in locales && rules[j].isDefault ==> Le(k, j)
            else forall j :: j in locales ==> Le(k, j)
  {
    var preferred := Preferred(locales, rules);
    if preferred == {} {
      LeastExists(locales.Keys);
      if forall j :: j in locales ==> Le(k, j) { LeastIs(locales.Keys, k); }
      assert forall j :: j in locales ==> j !in preferred;
    } else {
      LeastExists(preferred);
      var j :| j in preferred;
      assert j in locales && rules[j].isDefault;
      if rules[k].isDefault && forall j :: j in locales && rules[j].isDefault ==> Le(k, j) { LeastIs(preferred, k); }
    }
  }

  /** What LocaleChosen says of one locale, for the classified documents of its component. */
  lemma {:induction false} LocaleOfPlans(x: Syntax, c: string, files: seq<string>, rules: map<string, LocaleRules>,
                                         entrypoints: map<string, string>, locales: map<string, seq<string>>,
                                         plans: map<string, LocalePlan>, k: string)
    requires StrictlyAscending(files) && Classifies(x, files, rules, locales)
    requires Plans(c, rules, entrypoints, locales, plans) && k in plans
    ensures plans.Keys == rules.Keys && DocumentsChosen(x, files, rules[k], plans[k])
    ensures DefaultChosen(rules, plans, k)
    ensures LocaleEntrypointChosen(c, rules[k].entrypoint,
                                   if c in entrypoints then Some(entrypoints[c]) else None, plans[k])
  {
    assert plans.Keys == locales.Keys;
    assert Some(plans[k]) == PlanOf(c, rules, entrypoints, locales, Default(locales, rules), k);
    OneLocaleEntrypoint(c, rules[k], entrypoints, locales[k], k == Default(locales, rules));
    assert Some(locales[k]) == Classify(x, files, rules[k]);
    LocaleFilesMeaning(x, files, x.compile(rules[k].paths).value);
    DefaultMeans(locales, rules, k);
  }

  lemma {:induction false} LocaleIsChosen(i: Inputs, plan: BuildPlan, cls: Classification, c: string, k: string)
    requires PlansAll(i.cfg.components, plan.entrypoints, cls, plan.locales)
    requires ClassifiesAll(i.x, i.cfg.components, plan.ownership, cls)
    requires c in plan.locales && k in plan.locales[c] && StrictlyAscending(FilesOrNone(plan.ownership, c))
    ensures LocaleChosen(i, plan, c, k)
  {
    assert ComponentPlanned(i.cfg.components, plan.entrypoints, cls, c, plan.locales[c]);
    LocaleOfPlans(i.x, c, FilesOrNone(plan.ownership, c), i.cfg.components[c].locales, plan.entrypoints, cls[c],
                  plan.locales[c], k);
  }

  /** The configured parts of the plan. */
  ghost predicate Configured(cfg: BuildConfig, plan: BuildPlan) {
    && plan.annotations == cfg.annotations && plan.variant == cfg.variant
    && plan.document == (if cfg.document == "" then "default" else cfg.document)
    && forall c :: c in plan.locales <==> c in cfg.components && cfg.components[c].locales.Keys != {}
  }

  /** The plan warns about each declared component without files, unless it comes from the embedded
      defaults, and about each locale without documents. Strict plans have neither. */
  ghost predicate WarnsExactly(cfg: BuildConfig, plan: BuildPlan) {
    && (forall c :: EmptyComponent(c) in plan.warnings <==>
                    !cfg.embeddedDefault && c in cfg.components && FilesOrNone(plan.ownership, c) == [])
    && (forall c, k :: EmptyLocale(c, k) in plan.warnings <==>
                       c in plan.locales && k in plan.locales[c] && plan.locales[c][k].paths == [])
    && (cfg.strict ==> forall c :: c in cfg.components ==> FilesOrNone(plan.ownership, c) != [])
    && (cfg.strict ==> forall c, k :: c in plan.locales && k in plan.locales[c] ==> plan.locales[c][k].paths != [])
  }

  lemma {:induction false} EmptyComponentsWarned(cfg: BuildConfig, o: Ownership, messages: seq<string>, c: string)
    ensures EmptyComponent(c) in DependencyWarnings(messages) + ComponentWarnings(cfg, o) <==>
            !cfg.embeddedDefault && c in cfg.components && FilesOrNone(o, c) == []
  {
    var names := Listing(EmptyOnes(cfg.components, o));
    ListingMembers(EmptyOnes(cfg.components, o));
    assert forall k :: 0 <= k < |names| ==> EmptyWarnings(names)[k] == EmptyComponent(names[k]);
    if c in names {
      var k :| 0 <= k < |names| && names[k] == c;
      assert EmptyWarnings(names)[k] == EmptyComponent(c);
    }
  }

  lemma {:induction false} PlanParts(i: Inputs, plan: BuildPlan) returns (messages: seq<string>, cls: Classification)
    requires IsPlan(i, Ok(plan))
    ensures ExplicitOwned(plan.ownership, ExplicitEntrypoints(i.cfg.components))
    ensures PlannedWith(i, plan.ownership, messages, cls, Ok(plan))
  {
    var ignored := i.cfg.ignored.value;
    var owned := OwnershipPlan.Planned(i.dirs, i.root, i.rules, MatchersOf(i.x, i.cfg.components), ignored).value;
    var (o, found) := Discovered(i.world.(ignored := ignored), i.rules, owned, i.cfg.strict).value;
    assert IsPlanOf(i, o, found, Ok(plan));
    messages := found;
    cls := SomeClassification(i, o, messages, Ok(plan));
    BuiltWith(i, o, messages, Ok(plan), cls);
  }

  lemma {:induction false} PathsKept(c: string, rules: map<string, LocaleRules>, entrypoints: map<string, string>,
                                     locales: map<string, seq<string>>, plans: map<string, LocalePlan>, k: string)
    requires Plans(c, rules, entrypoints, locales, plans) && k in plans
    ensures k in locales && plans[k].paths == locales[k]
  {
    assert Some(plans[k]) == PlanOf(c, rules, entrypoints, locales, Default(locales, rules), k);
  }

  /** A locale is reported exactly when its planned documents are none. */
  lemma {:induction false} LocaleReported(components: map<string, ComponentRules>, cls: Classification,
                                          entrypoints: map<string, string>, plans: LocalePlans, c: string, k: string)
    requires PlansAll(components, entrypoints, cls, plans)
    ensures ReportsEmptyIn(cls, EmptyLocale(c, k)) <==> c in plans && k in plans[c] && plans[c][k].paths == []
  {
    if c in plans {
      assert ComponentPlanned(components, entrypoints, cls, c, plans[c]);
      var rules := DeclaredLocales(components, c);
      assert Plans(c, rules, entrypoints, cls[c], plans[c]);
      if k in plans[c] { PathsKept(c, rules, entrypoints, cls[c], plans[c], k); }
    } else {
      assert c in cls ==> !HasLocales(cls[c]);
    }
  }

  lemma {:induction false} InTail<T>(s: seq<T>, first: seq<T>, w: T)
    requires |first| <= |s| && s[..|first|] == first
    ensures w in s <==> w in first || w in s[|first|..]
  {
    assert s == first + s[|first|..];
  }

  lemma {:induction false} WarningsChosen(i: Inputs, messages: seq<string>, cls: Classification, plan: BuildPlan)
    requires IsBuildPlan(i, plan.ownership, messages, cls, plan)
    requires i.cfg.strict ==> !AnyEmptyLocale(cls) && EmptyOnes(i.cfg.components, plan.ownership) == {}
    ensures WarnsExactly(i.cfg, plan)
  {
    var first := DependencyWarnings(messages) + ComponentWarnings(i.cfg, plan.ownership);
    forall c ensures EmptyComponent(c) in plan.warnings <==>
                     !i.cfg.embeddedDefault && c in i.cfg.components && FilesOrNone(plan.ownership, c) == [] {
      InTail(plan.warnings, first, EmptyComponent(c));
      EmptyComponentsWarned(i.cfg, plan.ownership, messages, c);
    }
    forall c, k
      ensures EmptyLocale(c, k) in plan.warnings <==>
              c in plan.locales && k in plan.locales[c] && plan.locales[c][k].paths == []
      ensures i.cfg.strict && c in plan.locales && k in plan.locales[c] ==> plan.locales[c][k].paths != []
    {
      InTail(plan.warnings, first, EmptyLocale(c, k));
      assert EmptyLocale(c, k) !in first;
      LocaleReported(i.cfg.components, cls, plan.entrypoints, plan.locales, c, k);
    }
    if i.cfg.strict {
      forall c | c in i.cfg.components ensures FilesOrNone(plan.ownership, c) != [] {
        assert c !in EmptyOnes(i.cfg.components, plan.ownership);
      }
    }
  }

  lemma {:induction false} PlanUnpacked(i: Inputs, messages: seq<string>, cls: Classification, plan: BuildPlan)
    requires PlannedWith(i, plan.ownership, messages, cls, Ok(plan))
    ensures ClassifiesAll(i.x, i.cfg.components, plan.ownership, cls)
    ensures IsBuildPlan(i, plan.ownership, messages, cls, plan)
    ensures i.cfg.strict ==> !AnyEmptyLocale(cls) && EmptyOnes(i.cfg.components, plan.ownership) == {}
  {
  }

  lemma {:induction false} ConfiguredParts(i: Inputs, messages: seq<string>, cls: Classification, plan: BuildPlan)
    requires ClassifiesAll(i.x, i.cfg.components, plan.ownership, cls)
    requires IsBuildPlan(i, plan.ownership, messages, cls, plan)
    ensures Configured(i.cfg, plan) && PlansAll(i.cfg.components, plan.entrypoints, cls, plan.locales)
    ensures plan.entrypoints == EntrypointsOf(plan.ownership, ExplicitEntrypoints(i.cfg.components))
  {
    forall c ensures c in plan.locales <==> c in i.cfg.components && i.cfg.components[c].locales.Keys != {} {
      if c in cls {
        assert Classifies(i.x, FilesOrNone(plan.ownership, c), i.cfg.components[c].locales, cls[c]);
        assert HasLocales(cls[c]) <==> cls[c].Keys != {};
      }
    }
  }

  lemma {:induction false} PartsChosen(i: Inputs, messages: seq<string>, cls: Classification, plan: BuildPlan)
    requires ClassifiesAll(i.x, i.cfg.components, plan.ownership, cls)
    requires IsBuildPlan(i, plan.ownership, messages, cls, plan)
    requires ExplicitOwned(plan.ownership, ExplicitEntrypoints(i.cfg.components))
    requires forall c :: c in plan.ownership ==> StrictlyAscending(plan.ownership[c])
    ensures forall c :: c in plan.ownership ==> EntrypointChosen(i.cfg, plan, c)
    ensures forall c, k :: c in plan.locales && k in plan.locales[c] ==> LocaleChosen(i, plan, c, k)
  {
    ConfiguredParts(i, messages, cls, plan);
    forall c | c in plan.ownership ensures EntrypointChosen(i.cfg, plan, c) {
      EntrypointsChosen(i, plan, c);
    }
    forall c, k | c in plan.locales && k in plan.locales[c] ensures LocaleChosen(i, plan, c, k) {
      LocaleIsChosen(i, plan, cls, c, k);
    }
  }

  /** Every successful plan makes the choices that the configuration and the owned files call for. */
  lemma {:induction false} ChosenExactly(i: Inputs, plan: BuildPlan)
    requires IsPlan(i, Ok(plan))
    ensures Configured(i.cfg, plan) && WarnsExactly(i.cfg, plan)
    ensures forall c :: c in plan.ownership ==> EntrypointChosen(i.cfg, plan, c)
    ensures forall c, k :: c in plan.locales && k in plan.locales[c] ==> LocaleChosen(i, plan, c, k)
  {
    PlansAreSound(i, Ok(plan));
    var messages, cls := PlanParts(i, plan);
    PlanUnpacked(i, messages, cls, plan);
    ConfiguredParts(i, messages, cls, plan);
    WarningsChosen(i, messages, cls, plan);
    PartsChosen(i, messages, cls, plan);
  }
}
