/** What every successful plan guarantees, whatever the configuration and the source tree. */
module PlanTheory {
  import opened Prelude
  import opened ManagedAnnotations
  import opened PathTrie
  import opened Discovery
  import opened Entrypoints
  import opened Planning
  import OwnershipPlan

  /** The files of a plan: known components, none empty, lists strictly ascending and disjoint,
      all files together acceptable. */
  ghost predicate OwnershipSound(x: Syntax, rules: Rules, o: Ownership) {
    && o.Keys != {} && SingleOwner(o) && Acceptable(rules, Listing(AllFiles(o)))
    && (forall c :: c in o ==> x.component(c) && o[c] != [] && StrictlyAscending(o[c]))
  }

  /** One locale: owned documents in order, and an entrypoint among them if there are any. */
  ghost predicate LocaleSound(x: Syntax, files: seq<string>, k: string, l: LocalePlan) {
    && x.locale(k) && StrictlyAscending(l.paths)
    && (forall p :: p in l.paths ==> p in files && x.document(p))
    && (l.entrypoint != "" ==> l.entrypoint in l.paths)
  }

  /** The locales of one component: each sound, and exactly one the default. */
  ghost predicate LocalesSound(x: Syntax, files: seq<string>, plans: map<string, LocalePlan>) {
    && (forall k :: k in plans ==> LocaleSound(x, files, k, plans[k]))
    && (forall j, k :: j in plans && k in plans && plans[j].isDefault && plans[k].isDefault ==> j == k)
    && (plans.Keys != {} ==> exists k :: k in plans && plans[k].isDefault)
  }

  ghost predicate PlanSound(x: Syntax, rules: Rules, plan: BuildPlan) {
    && OwnershipSound(x, rules, plan.ownership)
    && (forall c :: c in plan.entrypoints ==>
          c in plan.ownership && plan.entrypoints[c] in plan.ownership[c])
    && (forall c :: c in plan.locales ==>
          LocalesSound(x, FilesOrNone(plan.ownership, c), plan.locales[c]))
    && plan.document != ""
    && (forall k :: k in plan.annotations ==> !(RESERVED_PREFIX <= k))
  }

  lemma EntrypointsSound(o: Ownership, explicit: map<string, string>)
    requires ExplicitOwned(o, explicit)
    ensures forall c :: c in EntrypointsOf(o, explicit) ==> c in o && EntrypointsOf(o, explicit)[c] in o[c]
  {
    forall c | c in EntrypointsOf(o, explicit) ensures EntrypointsOf(o, explicit)[c] in o[c] {
      if c !in explicit { assert Detect(c, o[c]).Some?; }
    }
  }

  lemma LeastExists(xs: set<string>)
    requires xs != {}
    ensures IsLeast(xs, Least(xs))
  {
    ListingLists(xs);
    ListingMembers(xs);
    var s := Listing(xs);
    forall y | y in xs ensures Le(s[0], y) {
      var i :| 0 <= i < |s| && s[i] == y;
      LeRefl(s[0]);
      assert i > 0 ==> Lt(s[0], s[i]);
    }
    assert IsLeast(xs, s[0]);
  }

  /** The fallback is one of the locales. */
  lemma DefaultIsLocale(locales: map<string, seq<string>>, rules: map<string, LocaleRules>)
    requires locales.Keys != {}
    ensures Default(locales, rules) in locales
  {
    if Preferred(locales, rules) == {} {
      LeastExists(locales.Keys);
    } else {
      LeastExists(Preferred(locales, rules));
    }
  }

  lemma OneLocaleSound(x: Syntax, c: string, rules: LocaleRules, entrypoints: map<string, string>,
                       paths: seq<string>, isDefault: bool, files: seq<string>, k: string)
    requires x.locale(k) && StrictlyAscending(paths)
    requires forall p :: p in paths ==> p in files && x.document(p)
    ensures var plan := PlanLocale(c, rules, entrypoints, paths, isDefault);
            plan.Some? ==> LocaleSound(x, files, k, plan.value) && plan.value.isDefault == isDefault
  {
    assert Detect(c, paths).Some? ==> Detect(c, paths).value in paths;
  }

  lemma ComponentLocalesSound(x: Syntax, c: string, files: seq<string>, rules: map<string, LocaleRules>,
                              entrypoints: map<string, string>, locales: map<string, seq<string>>,
                              plans: map<string, LocalePlan>)
    requires StrictlyAscending(files) && LocalesValid(x, rules)
    requires Classifies(x, files, rules, locales) && Plans(c, rules, entrypoints, locales, plans)
    ensures LocalesSound(x, files, plans)
  {
    forall k | k in plans
      ensures LocaleSound(x, files, k, plans[k]) && (plans[k].isDefault <==> k == Default(locales, rules))
    {
      LocaleFilesMeaning(x, files, x.compile(rules[k].paths).value);
      OneLocaleSound(x, c, rules[k], entrypoints, locales[k], k == Default(locales, rules), files, k);
      assert Some(plans[k]) == PlanOf(c, rules, entrypoints, locales, Default(locales, rules), k);
    }
    if plans.Keys != {} {
      var k :| k in plans;
      assert k in locales.Keys;
      DefaultIsLocale(locales, rules);
      assert Default(locales, rules) in plans;
    }
  }

  lemma AllLocalesSound(i: Inputs, o: Ownership, entrypoints: map<string, string>, cls: Classification,
                        plans: LocalePlans)
    requires ConfigValid(i.x, i.cfg)
    requires forall c :: c in o ==> StrictlyAscending(o[c])
    requires ClassifiesAll(i.x, i.cfg.components, o, cls)
    requires PlansAll(i.cfg.components, entrypoints, cls, plans)
    ensures forall c :: c in plans ==> LocalesSound(i.x, FilesOrNone(o, c), plans[c])
  {
    forall c | c in plans ensures LocalesSound(i.x, FilesOrNone(o, c), plans[c]) {
      assert c in cls && ComponentPlanned(i.cfg.components, entrypoints, cls, c, plans[c]);
      ComponentLocalesSound(i.x, c, FilesOrNone(o, c), i.cfg.components[c].locales, entrypoints, cls[c], plans[c]);
    }
  }

  /** The components of the source tree's plan are declared ones. */
  lemma PlannedComponents(i: Inputs, m: OwnershipPlan.Matchers, ignored: string -> bool)
    requires OwnershipPlan.Planned(i.dirs, i.root, i.rules, m, ignored).Ok?
    ensures OwnershipPlan.Planned(i.dirs, i.root, i.rules, m, ignored).value.Keys <= m.Keys
  {
    OwnershipPlan.OwnersDeclared(i.dirs, i.root, i.rules, m, ignored);
  }

  lemma OwnershipIsSound(i: Inputs, m: OwnershipPlan.Matchers, ignored: string -> bool)
    requires ConfigValid(i.x, i.cfg) && m.Keys <= i.cfg.components.Keys
    requires OwnershipPlan.Planned(i.dirs, i.root, i.rules, m, ignored).Ok?
    ensures var owned := OwnershipPlan.Planned(i.dirs, i.root, i.rules, m, ignored).value;
            var found := Discovered(i.world.(ignored := ignored), i.rules, owned, i.cfg.strict);
            found.Ok? && found.value.0.Keys != {} ==> OwnershipSound(i.x, i.rules, found.value.0)
  {
    var owned := OwnershipPlan.Planned(i.dirs, i.root, i.rules, m, ignored).value;
    var world := i.world.(ignored := ignored);
    OwnershipPlan.PlannedIsSound(i.dirs, i.root, i.rules, m, ignored);
    PlannedComponents(i, m, ignored);
    if Discovered(world, i.rules, owned, i.cfg.strict).Ok? {
      DiscoveredIsSound(world, i.rules, owned, i.cfg.strict);
      var o := Discovered(world, i.rules, owned, i.cfg.strict).value.0;
      forall c | c in o ensures i.x.component(c) && o[c] != [] {
        assert c in owned && c in i.cfg.components && owned[c][0] in o[c];
      }
    }
  }

  lemma SomeClassification(i: Inputs, o: Ownership, messages: seq<string>, r: Planning.Outcome)
    returns (cls: Classification)
    requires IsPlanOf(i, o, messages, r) && r.Ok?
    ensures o.Keys != {} && ExplicitOwned(o, ExplicitEntrypoints(i.cfg.components))
    ensures PlannedWith(i, o, messages, cls, r)
  {
    cls :| PlannedWith(i, o, messages, cls, r);
  }

  lemma BuiltWith(i: Inputs, o: Ownership, messages: seq<string>, r: Planning.Outcome, cls: Classification)
    requires PlannedWith(i, o, messages, cls, r) && r.Ok?
    ensures ClassifiesAll(i.x, i.cfg.components, o, cls) && IsBuildPlan(i, o, messages, cls, r.value)
  {
  }

  lemma ClassifiedPlanSound(i: Inputs, o: Ownership, messages: seq<string>, cls: Classification, plan: BuildPlan)
    requires ConfigValid(i.x, i.cfg) && OwnershipSound(i.x, i.rules, o)
    requires ExplicitOwned(o, ExplicitEntrypoints(i.cfg.components))
    requires ClassifiesAll(i.x, i.cfg.components, o, cls) && IsBuildPlan(i, o, messages, cls, plan)
    ensures PlanSound(i.x, i.rules, plan)
  {
    EntrypointsSound(o, ExplicitEntrypoints(i.cfg.components));
    AllLocalesSound(i, o, plan.entrypoints, cls, plan.locales);
  }

  lemma OwnedPlanSound(i: Inputs, o: Ownership, messages: seq<string>, r: Planning.Outcome)
    requires ConfigValid(i.x, i.cfg)
    requires o.Keys != {} ==> OwnershipSound(i.x, i.rules, o)
    requires IsPlanOf(i, o, messages, r) && r.Ok?
    ensures PlanSound(i.x, i.rules, r.value)
  {
    var cls := SomeClassification(i, o, messages, r);
    BuiltWith(i, o, messages, r, cls);
    ClassifiedPlanSound(i, o, messages, cls, r.value);
  }

  /** Every successful plan is sound. */
  lemma PlansAreSound(i: Inputs, r: Planning.Outcome)
    requires IsPlan(i, r) && r.Ok?
    ensures PlanSound(i.x, i.rules, r.value)
  {
    var ignored := i.cfg.ignored.value;
    var m := MatchersOf(i.x, i.cfg.components);
    OwnershipIsSound(i, m, ignored);
    var owned := OwnershipPlan.Planned(i.dirs, i.root, i.rules, m, ignored).value;
    var (o, messages) := Discovered(i.world.(ignored := ignored), i.rules, owned, i.cfg.strict).value;
    assert IsPlanOf(i, o, messages, r);
    OwnedPlanSound(i, o, messages, r);
  }
}
