/** The builder (artifact/manifest.go, internal/archive/tar.go) against the checker: what a
    successful plan produces passes deep verification without an issue. */
module BuildVerify {
  import opened Prelude
  import opened ManagedAnnotations
  import opened PathTrie
  import opened Limits
  import opened Discovery
  import opened Entrypoints
  import opened Planning
  import opened PlanTheory
  import opened ArtifactVerify

  function ArtifactLocaleOf(l: LocalePlan): ArtifactLocale {
    ArtifactLocale(l.isDefault, l.entrypoint, l.paths)
  }

  function ComponentOf(plan: BuildPlan, c: string): ComponentConfig {
    ComponentConfig(
      Get(plan.entrypoints, c),
      if c in plan.locales then map k | k in plan.locales[c] :: ArtifactLocaleOf(plan.locales[c][k]) else map[])
  }

  ghost function ConfigOf(plan: BuildPlan): ArtifactConfig {
    ArtifactConfig(SCHEMA_VERSION, "", map c | c in plan.ownership :: ComponentOf(plan, c))
  }

  method BuildLocales(plans: map<string, LocalePlan>) returns (locales: map<string, ArtifactLocale>)
    ensures locales == map k | k in plans :: ArtifactLocaleOf(plans[k])
  {
    locales := map[];
    var todo := plans.Keys;
    while todo != {}
      invariant todo <= plans.Keys && locales.Keys == plans.Keys - todo
      invariant forall k :: k in locales ==> locales[k] == ArtifactLocaleOf(plans[k])
      decreases todo
    {
      var k :| k in todo;
      todo := todo - {k};
      locales := locales[k := ArtifactLocaleOf(plans[k])];
    }
  }

  /** buildArtifactConfig: components and locales in any order. */
  method BuildArtifactConfig(plan: BuildPlan) returns (cfg: ArtifactConfig)
    ensures cfg == ConfigOf(plan)
  {
    var components: map<string, ComponentConfig> := map[];
    var todo := plan.ownership.Keys;
    while todo != {}
      invariant todo <= plan.ownership.Keys && components.Keys == plan.ownership.Keys - todo
      invariant forall c :: c in components ==> components[c] == ComponentOf(plan, c)
      decreases todo
    {
      var c :| c in todo;
      todo := todo - {c};
      var locales: map<string, ArtifactLocale> := map[];
      if c in plan.locales {
        locales := BuildLocales(plan.locales[c]);
      }
      components := components[c := ComponentConfig(Get(plan.entrypoints, c), locales)];
    }
    assert components == map c | c in plan.ownership :: ComponentOf(plan, c);
    return ArtifactConfig(SCHEMA_VERSION, "", components);
  }

  function LayersFor(names: seq<string>, mediaType: string): seq<Layer> {
    seq(|names|, i requires 0 <= i < |names| => Layer(names[i], mediaType))
  }

  function AnnotationsOf(plan: BuildPlan, names: seq<string>): map<string, string> {
    var base := plan.annotations[KEY_SCHEMA := SCHEMA_VERSION][KEY_COMPONENTS := JoinComma(names)]
                                [KEY_DOCUMENT := plan.document];
    if plan.variant == "" then base else base[KEY_VARIANT := plan.variant]
  }

  ghost function ManifestOf(plan: BuildPlan, mediaType: string): Manifest {
    var names := Listing(plan.ownership.Keys);
    Manifest(MANIFEST_MEDIA_TYPE, ARTIFACT_TYPE, CONFIG_MEDIA_TYPE, LayersFor(names, mediaType),
             AnnotationsOf(plan, names))
  }

  method BuildLayers(names: seq<string>, mediaType: string) returns (layers: seq<Layer>)
    ensures layers == LayersFor(names, mediaType)
  {
    layers := [];
    var i := 0;
    while i < |names|
      invariant i <= |names| && layers == LayersFor(names[..i], mediaType)
    {
      layers := layers + [Layer(names[i], mediaType)];
      i := i + 1;
    }
    assert names[..i] == names;
  }

  /** buildManifest, for layers that all have the media type of the plan's compression. */
  method BuildManifest(plan: BuildPlan, mediaType: string) returns (m: Manifest)
    ensures m == ManifestOf(plan, mediaType)
  {
    var names := SortedKeys(plan.ownership.Keys);
    var layers := BuildLayers(names, mediaType);
    return Manifest(MANIFEST_MEDIA_TYPE, ARTIFACT_TYPE, CONFIG_MEDIA_TYPE, layers, AnnotationsOf(plan, names));
  }

  lemma ManagedKeysReserved()
    ensures RESERVED_PREFIX <= KEY_SCHEMA && RESERVED_PREFIX <= KEY_COMPONENTS
    ensures RESERVED_PREFIX <= KEY_DOCUMENT && RESERVED_PREFIX <= KEY_VARIANT
  {
  }

  /** User annotations reach the manifest unchanged: none of their keys is managed. */
  lemma UserAnnotationsKept(x: Syntax, rules: Rules, plan: BuildPlan, mediaType: string, key: string)
    requires PlanSound(x, rules, plan) && key in plan.annotations
    ensures key in ManifestOf(plan, mediaType).annotations
    ensures ManifestOf(plan, mediaType).annotations[key] == plan.annotations[key]
  {
    ManagedKeysReserved();
  }

  /** Every locale is carried over with all it says. */
  predicate LocalesCarried(plans: map<string, LocalePlan>, locales: map<string, ArtifactLocale>) {
    && locales.Keys == plans.Keys
    && forall k :: k in plans ==>
         && locales[k].isDefault == plans[k].isDefault && locales[k].entrypoint == plans[k].entrypoint
         && locales[k].files == plans[k].paths
  }

  /** The built configuration lists the owned components, each with the entrypoint and the locales
      of the plan. */
  lemma BuiltConfigExactly(plan: BuildPlan)
    ensures var cfg := ConfigOf(plan);
            && cfg.schemaVersion == "v1beta" && cfg.schema == "" && cfg.components.Keys == plan.ownership.Keys
            && forall c :: c in plan.ownership ==>
                 && (if c in plan.entrypoints then cfg.components[c].entrypoint == plan.entrypoints[c]
                     else cfg.components[c].entrypoint == "")
                 && LocalesCarried(if c in plan.locales then plan.locales[c] else map[], cfg.components[c].locales)
  {
  }

  /** Keys that the builder does not manage have the user's values. */
  ghost predicate OthersCarried(plan: BuildPlan, annotations: map<string, string>) {
    forall k :: k !in {"org.ocidoc.schema", "org.ocidoc.components", "org.ocidoc.document.id"}
                && (k != "org.ocidoc.document.variant" || plan.variant == "") ==>
      && (k in annotations <==> k in plan.annotations)
      && (k in annotations ==> annotations[k] == plan.annotations[k])
  }

  lemma KindsOfLayers(names: seq<string>, mediaType: string)
    ensures Kinds(LayersFor(names, mediaType)) == names
  {
  }

  lemma ReservedKeysDiffer()
    ensures KEY_SCHEMA != KEY_COMPONENTS && KEY_SCHEMA != KEY_DOCUMENT && KEY_COMPONENTS != KEY_DOCUMENT
    ensures KEY_VARIANT !in [KEY_SCHEMA, KEY_COMPONENTS, KEY_DOCUMENT]
  {
    assert KEY_SCHEMA[11] == 's' && KEY_COMPONENTS[11] == 'c' && KEY_DOCUMENT[11] == 'd' && KEY_VARIANT[11] == 'd';
    assert |KEY_DOCUMENT| != |KEY_VARIANT|;
  }

  /** The built manifest: one layer per owned component in ascending order, and its annotations:
      the schema, the types of the components, the document, a variant if there is one, and under
      every other key what the user gave. */
  lemma BuiltManifestExactly(plan: BuildPlan, mediaType: string)
    requires forall c :: c in plan.ownership ==> ',' !in c
    requires plan.ownership.Keys != {}
    ensures var m := ManifestOf(plan, mediaType);
            && Lists(Kinds(m.layers), plan.ownership.Keys)
            && (forall i :: 0 <= i < |m.layers| ==> m.layers[i].mediaType == mediaType)
            && "org.ocidoc.schema" in m.annotations && m.annotations["org.ocidoc.schema"] == "v1beta"
            && "org.ocidoc.components" in m.annotations
            && Fields(m.annotations["org.ocidoc.components"]) == Kinds(m.layers)
            && "org.ocidoc.document.id" in m.annotations && m.annotations["org.ocidoc.document.id"] == plan.document
            && (plan.variant != "" ==> Get(m.annotations, "org.ocidoc.document.variant") == plan.variant)
            && OthersCarried(plan, m.annotations)
  {
    var names := Listing(plan.ownership.Keys);
    ListingLists(plan.ownership.Keys);
    ListingMembers(plan.ownership.Keys);
    ReservedKeysDiffer();
    KindsOfLayers(names, mediaType);
    forall i | 0 <= i < |names| ensures ',' !in names[i] { assert names[i] in names; }
    FieldsOfJoin(names);
  }

  /** File contents by path. */
  type Contents = string -> Bytes

  /** Every file fits a tar header. */
  ghost predicate SizesFit(content: Contents, paths: seq<string>) {
    forall i :: 0 <= i < |paths| ==> |content(paths[i])| <= MAX_INT64
  }

  function TarEntry(content: Contents, path: string): Entry
    requires |content(path)| <= MAX_INT64
  {
    Entry(path, true, |content(path)|, content(path))
  }

  lemma SortedFit(content: Contents, paths: seq<string>)
    requires SizesFit(content, paths)
    ensures SizesFit(content, Sort(paths))
  {
    SortedMembers(paths);
    forall i | 0 <= i < |Sort(paths)| ensures |content(Sort(paths)[i])| <= MAX_INT64 {
      assert Sort(paths)[i] in paths;
    }
  }

  /** BuildTar: one regular entry per file, in path order. */
  ghost function TarOf(content: Contents, paths: seq<string>): seq<Entry>
    requires SizesFit(content, paths)
  {
    SortedFit(content, paths);
    var sorted := Sort(paths);
    seq(|sorted|, i requires 0 <= i < |sorted| => TarEntry(content, sorted[i]))
  }

  /** The archive has one regular entry per path, in path order, with the whole file as its data. */
  ghost predicate Archives(content: Contents, paths: seq<string>, entries: seq<Entry>) {
    && Names(entries) == Sort(paths)
    && forall i :: 0 <= i < |entries| ==>
         && entries[i].regular && entries[i].data == content(entries[i].name)
         && entries[i].size == |content(entries[i].name)|
  }

  lemma TarArchives(content: Contents, paths: seq<string>)
    requires SizesFit(content, paths)
    ensures Archives(content, paths, TarOf(content, paths))
  {
    SortedFit(content, paths);
  }

  method BuildTar(content: Contents, paths: seq<string>) returns (entries: seq<Entry>)
    requires SizesFit(content, paths)
    ensures entries == TarOf(content, paths) && Archives(content, paths, entries)
  {
    var sorted := Sort(paths);
    SortedFit(content, paths);
    entries := [];
    var i := 0;
    while i < |sorted|
      invariant i <= |sorted| && |entries| == i
      invariant forall k :: 0 <= k < i ==> entries[k] == TarEntry(content, sorted[k])
    {
      entries := entries + [TarEntry(content, sorted[i])];
      i := i + 1;
    }
    TarArchives(content, paths);
  }

  function BytesOf(content: Contents, paths: seq<string>): nat {
    if paths == [] then 0 else |content(paths[0])| + BytesOf(content, paths[1..])
  }

  /** The default limits of extraction, for every component on its own. */
  ghost predicate WithinLimits(content: Contents, o: Ownership) {
    forall c :: c in o ==>
      && |o[c]| <= DEFAULT_MAX_FILES && BytesOf(content, o[c]) <= DEFAULT_MAX_TOTAL_SIZE
      && forall i :: 0 <= i < |o[c]| ==> |content(o[c][i])| <= DEFAULT_MAX_FILE_SIZE
  }

  lemma FitsTar(content: Contents, o: Ownership, c: string)
    requires WithinLimits(content, o) && c in o
    ensures SizesFit(content, o[c])
  {
  }

  ghost function StreamOf(content: Contents, o: Ownership, c: string): Stream
    requires WithinLimits(content, o) && c in o
  {
    FitsTar(content, o, c);
    Tar(TarOf(content, o[c]), true, true)
  }

  /** The artifact of a plan as a reader sees it: the parsed manifest and configuration, and
      component streams that decode to the archived files with matching digests. */
  ghost function Built(plan: BuildPlan, mediaType: string, content: Contents): Reader
    requires WithinLimits(content, plan.ownership)
  {
    var m := ManifestOf(plan, mediaType);
    Reader(m, m.layers, ConfigOf(plan), map c | c in plan.ownership :: StreamOf(content, plan.ownership, c))
  }

  /** Every owned file is a valid path. */
  lemma OwnedValid(rules: Rules, o: Ownership, c: string, p: string)
    requires Acceptable(rules, Listing(AllFiles(o))) && c in o && p in o[c]
    ensures rules.fault(p).None?
  {
    assert p in AllFiles(o);
    ListingMembers(AllFiles(o));
    var files := Listing(AllFiles(o));
    var i :| 0 <= i < |files| && files[i] == p;
  }

  lemma BuiltLocalesOk(x: Syntax, rules: Rules, files: seq<string>, plans: map<string, LocalePlan>)
    requires LocalesSound(x, files, plans) && forall p :: p in files ==> rules.fault(p).None?
    ensures ArtifactLocalesOk(x, rules, map k | k in plans :: ArtifactLocaleOf(plans[k]))
    ensures ComponentLocalesOk(x, files, map k | k in plans :: ArtifactLocaleOf(plans[k]))
  {
    forall k | k in plans
      ensures x.locale(k) && EntrypointOk(rules, plans[k].entrypoint) && FilesOk(rules, plans[k].paths)
      ensures LocaleFilesOk(x, files, ArtifactLocaleOf(plans[k]))
    {
      assert LocaleSound(x, files, k, plans[k]);
      StrictIsDistinct(plans[k].paths);
      forall i | 0 <= i < |plans[k].paths| ensures rules.fault(plans[k].paths[i]).None? {
        assert plans[k].paths[i] in files;
      }
    }
  }

  /** Exactly one locale of a localized component is the default. */
  lemma OneDefault(x: Syntax, rules: Rules, plan: BuildPlan, c: string)
    requires PlanSound(x, rules, plan) && c in plan.ownership
    ensures var locales := ConfigOf(plan).components[c].locales;
            locales.Keys != {} ==>
              exists k :: && k in locales && locales[k].isDefault
                          && forall j :: j in locales && locales[j].isDefault ==> j == k
  {
    if c in plan.locales && plan.locales[c].Keys != {} {
      assert LocalesSound(x, FilesOrNone(plan.ownership, c), plan.locales[c]);
      var k :| k in plan.locales[c] && plan.locales[c][k].isDefault;
      var locales := ConfigOf(plan).components[c].locales;
      assert k in locales && locales[k].isDefault;
    }
  }

  lemma BuiltComponentOk(x: Syntax, rules: Rules, plan: BuildPlan, c: string)
    requires PlanSound(x, rules, plan) && c in plan.ownership
    ensures var cc := ComponentOf(plan, c);
            && x.component(c) && EntrypointOk(rules, cc.entrypoint)
            && ArtifactLocalesOk(x, rules, cc.locales)
            && ComponentLocalesOk(x, plan.ownership[c], cc.locales)
            && (cc.entrypoint == "" || cc.entrypoint in plan.ownership[c])
  {
    forall p | p in plan.ownership[c] ensures rules.fault(p).None? {
      OwnedValid(rules, plan.ownership, c, p);
    }
    if c in plan.locales {
      BuiltLocalesOk(x, rules, plan.ownership[c], plan.locales[c]);
    }
  }

  lemma BuiltAnnotations(plan: BuildPlan, names: seq<string>)
    ensures var a := AnnotationsOf(plan, names);
            && Get(a, KEY_COMPONENTS) == JoinComma(names) && Get(a, KEY_SCHEMA) == SCHEMA_VERSION
            && Get(a, KEY_DOCUMENT) == plan.document
  {
    ReservedKeysDiffer();
  }

  lemma BuiltConfigOk(x: Syntax, rules: Rules, plan: BuildPlan)
    requires PlanSound(x, rules, plan)
    ensures ConfigOk(x, rules, ConfigOf(plan)) && EntrypointsOk(rules, ConfigOf(plan))
    ensures ConfigOf(plan).components.Keys == plan.ownership.Keys
  {
    forall c | c in plan.ownership
      ensures x.component(c) && EntrypointOk(rules, ConfigOf(plan).components[c].entrypoint)
      ensures ArtifactLocalesOk(x, rules, ConfigOf(plan).components[c].locales)
    {
      BuiltComponentOk(x, rules, plan, c);
    }
  }

  lemma BuiltLayersOk(names: seq<string>, mediaType: string)
    requires StrictlyAscending(names) && Supported(mediaType)
    ensures var layers := LayersFor(names, mediaType);
            && Kinds(layers) == names && Distinct(Kinds(layers)) && MediaTypesOk(layers) && Sort(Kinds(layers)) == names
  {
    KindsOfLayers(names, mediaType);
    StrictIsDistinct(names);
    SortedAlready(names);
  }

  lemma BuiltShape(plan: BuildPlan, mediaType: string)
    requires plan.ownership.Keys != {} && Supported(mediaType)
    ensures var m, names := ManifestOf(plan, mediaType), Listing(plan.ownership.Keys);
            && ShapeOk(m) && StrictlyAscending(names) && Elements(names) == plan.ownership.Keys
            && m.layers == LayersFor(names, mediaType) && m.annotations == AnnotationsOf(plan, names)
  {
    ListingLists(plan.ownership.Keys);
    ListingMembers(plan.ownership.Keys);
  }

  /** Everything the checker asks of manifest, configuration and descriptors. */
  lemma BuiltMetadataOk(x: Syntax, rules: Rules, plan: BuildPlan, mediaType: string, content: Contents)
    requires PlanSound(x, rules, plan) && Supported(mediaType) && WithinLimits(content, plan.ownership)
    ensures MetadataOk(x, rules, Built(plan, mediaType, content))
  {
    var names := Listing(plan.ownership.Keys);
    BuiltShape(plan, mediaType);
    BuiltAnnotations(plan, names);
    BuiltLayersOk(names, mediaType);
    BuiltConfigOk(x, rules, plan);
  }

  /** Files per component in the order of the archive: the ascending lists themselves. */
  lemma ArchivedNames(content: Contents, paths: seq<string>)
    requires SizesFit(content, paths) && StrictlyAscending(paths)
    ensures Names(TarOf(content, paths)) == paths && |TarOf(content, paths)| == |paths|
    ensures forall i :: 0 <= i < |paths| ==> TarOf(content, paths)[i] == TarEntry(content, paths[i])
  {
    SortedAlready(paths);
  }

  lemma {:induction false} BytesAppend(content: Contents, a: seq<string>, b: seq<string>)
    ensures BytesOf(content, a + b) == BytesOf(content, a) + BytesOf(content, b)
  {
    if a == [] {
      assert a + b == b;
    } else {
      assert (a + b)[1..] == a[1..] + b;
      BytesAppend(content, a[1..], b);
    }
  }

  lemma {:induction false} SizesAdd(content: Contents, paths: seq<string>, entries: seq<Entry>, k: nat)
    requires SizesFit(content, paths) && k <= |entries| == |paths|
    requires forall i :: 0 <= i < |paths| ==> entries[i] == TarEntry(content, paths[i])
    ensures SizeOfFirst(entries, k) == BytesOf(content, paths[..k]) <= BytesOf(content, paths)
  {
    BytesAppend(content, paths[..k], paths[k..]);
    assert paths[..k] + paths[k..] == paths;
    if k > 0 {
      SizesAdd(content, paths, entries, k - 1);
      BytesAppend(content, paths[..k - 1], [paths[k - 1]]);
      assert paths[..k] == paths[..k - 1] + [paths[k - 1]];
      assert BytesOf(content, [paths[k - 1]]) == |content(paths[k - 1])|;
    }
  }

  lemma EntryArchivedSafe(rules: Rules, content: Contents, paths: seq<string>, entries: seq<Entry>, k: nat)
    requires SizesFit(content, paths) && k < |entries| == |paths|
    requires forall i :: 0 <= i < |paths| ==> entries[i] == TarEntry(content, paths[i])
    requires |paths| <= DEFAULT_MAX_FILES && BytesOf(content, paths) <= DEFAULT_MAX_TOTAL_SIZE
    requires |content(paths[k])| <= DEFAULT_MAX_FILE_SIZE && rules.fault(paths[k]).None?
    ensures EntrySafe(rules, entries, k)
  {
    SizesAdd(content, paths, entries, k + 1);
  }

  lemma ArchiveSafe(rules: Rules, content: Contents, o: Ownership, c: string)
    requires WithinLimits(content, o) && c in o && StrictlyAscending(o[c])
    requires forall p :: p in o[c] ==> rules.fault(p).None?
    ensures StreamSound(rules, StreamOf(content, o, c)) && Names(StreamOf(content, o, c).entries) == o[c]
  {
    FitsTar(content, o, c);
    ArchivedNames(content, o[c]);
    var entries := TarOf(content, o[c]);
    forall k | 0 <= k < |entries| ensures EntrySafe(rules, entries, k) {
      EntryArchivedSafe(rules, content, o[c], entries, k);
    }
  }

  lemma {:induction false} OpenedMeaning(components: seq<Layer>, only: string, n: nat)
    requires n <= |components| && Distinct(Kinds(components))
    ensures forall k :: k in OpenedFirst(components, only, n) <==>
              Selected(only, k) && exists i :: 0 <= i < n && components[i].kind == k
    ensures Distinct(OpenedFirst(components, only, n))
  {
    if n > 0 {
      OpenedMeaning(components, only, n - 1);
      forall i | 0 <= i < n - 1 ensures components[i].kind != components[n - 1].kind {
        assert Kinds(components)[i] != Kinds(components)[n - 1];
      }
    }
  }

  /** The components that deep verification of a built artifact opens. */
  lemma BuiltOpened(plan: BuildPlan, mediaType: string, only: string)
    requires plan.ownership.Keys != {} && Supported(mediaType)
    ensures var layers := ManifestOf(plan, mediaType).layers;
            var kinds := OpenedFirst(layers, only, |layers|);
            Distinct(kinds) && forall k :: k in kinds <==> k in plan.ownership && Selected(only, k)
  {
    var names := Listing(plan.ownership.Keys);
    var layers := ManifestOf(plan, mediaType).layers;
    BuiltShape(plan, mediaType);
    BuiltLayersOk(names, mediaType);
    OpenedMeaning(layers, only, |layers|);
    forall k ensures (exists i :: 0 <= i < |layers| && layers[i].kind == k) <==> k in plan.ownership {
      assert k in names <==> k in Elements(names);
      if k in names {
        var i :| 0 <= i < |names| && names[i] == k;
        assert layers[i].kind == k;
      }
    }
  }

  /** Any part of an acceptable list, without repetition and in any order, is acceptable. */
  lemma PartAcceptable(rules: Rules, part: seq<string>, all: seq<string>)
    requires Acceptable(rules, all) && Distinct(part) && forall p :: p in part ==> p in all
    ensures Acceptable(rules, part)
  {
    CollisionFreeAsSet(rules, all);
    CollisionFreeAsSet(rules, part);
    forall i | 0 <= i < |part| ensures rules.fault(part[i]).None? {
      assert part[i] in part && part[i] in all;
      var j :| 0 <= j < |all| && all[j] == part[i];
    }
  }

  ghost predicate NamedAs(streams: map<string, Stream>, o: Ownership, kinds: seq<string>) {
    forall c :: c in kinds ==> c in o && FileNames(streams, c) == o[c]
  }

  lemma LastIsNew(before: seq<string>, last: string)
    requires Distinct(before + [last])
    ensures last !in before
  {
    var all := before + [last];
    forall i | 0 <= i < |before| ensures before[i] != last { assert all[i] != all[|before|]; }
  }

  lemma {:induction false} AllNamesOwned(streams: map<string, Stream>, o: Ownership, kinds: seq<string>)
    requires SingleOwner(o) && Distinct(kinds) && NamedAs(streams, o, kinds)
    ensures Distinct(AllNames(streams, kinds))
    ensures forall p :: p in AllNames(streams, kinds) <==> exists c :: c in kinds && p in o[c]
    decreases |kinds|
  {
    if kinds != [] {
      var before, last := kinds[..|kinds| - 1], kinds[|kinds| - 1];
      assert kinds == before + [last];
      assert forall c :: c in kinds <==> c in before || c == last;
      AllNamesOwned(streams, o, before);
      var names := AllNames(streams, before);
      LastIsNew(before, last);
      forall p | p in names ensures p !in o[last] {
        var c :| c in before && p in o[c];
        assert c != last;
      }
      DistinctConcat(names, o[last]);
    }
  }

  lemma BuiltPathsAcceptable(x: Syntax, rules: Rules, plan: BuildPlan, streams: map<string, Stream>, kinds: seq<string>)
    requires PlanSound(x, rules, plan) && Distinct(kinds) && NamedAs(streams, plan.ownership, kinds)
    ensures Acceptable(rules, AllNames(streams, kinds))
  {
    var o := plan.ownership;
    AllNamesOwned(streams, o, kinds);
    ListingMembers(AllFiles(o));
    forall p | p in AllNames(streams, kinds) ensures p in Listing(AllFiles(o)) {
      var c :| c in kinds && p in o[c];
      assert p in AllFiles(o);
    }
    PartAcceptable(rules, AllNames(streams, kinds), Listing(AllFiles(o)));
  }

  lemma BuiltStream(x: Syntax, rules: Rules, plan: BuildPlan, mediaType: string, content: Contents, c: string)
    requires PlanSound(x, rules, plan) && WithinLimits(content, plan.ownership) && c in plan.ownership
    ensures var streams := Built(plan, mediaType, content).streams;
            StreamSound(rules, OpenStream(streams, c)) && FileNames(streams, c) == plan.ownership[c]
  {
    forall p | p in plan.ownership[c] ensures rules.fault(p).None? {
      OwnedValid(rules, plan.ownership, c, p);
    }
    ArchiveSafe(rules, content, plan.ownership, c);
  }

  /** Every component's stream is sound and holds exactly its files. */
  ghost predicate StreamsHold(rules: Rules, streams: map<string, Stream>, o: Ownership) {
    forall c :: c in o ==> StreamSound(rules, OpenStream(streams, c)) && FileNames(streams, c) == o[c]
  }

  lemma SomeOpened(o: Ownership, kinds: seq<string>, only: string)
    requires forall k :: k in kinds <==> k in o && Selected(only, k)
    requires only == "" || only in o
    ensures only == "" || kinds != []
  {
    if only != "" { assert only in kinds; }
  }

  lemma NameOf(streams: map<string, Stream>, o: Ownership, kinds: seq<string>, c: string)
    requires NamedAs(streams, o, kinds) && c in o
    ensures c in NamesOf(streams, kinds) <==> c in kinds
    ensures c in kinds ==> NamesOf(streams, kinds)[c] == o[c]
  {
  }

  lemma OpenedOk(x: Syntax, rules: Rules, plan: BuildPlan, streams: map<string, Stream>, kinds: seq<string>,
                 only: string)
    requires PlanSound(x, rules, plan) && NamedAs(streams, plan.ownership, kinds)
    requires forall k :: k in kinds <==> k in plan.ownership && Selected(only, k)
    ensures var cfg, names := ConfigOf(plan), NamesOf(streams, kinds);
            && (forall c :: c in cfg.components ==> OwnedEntrypoint(cfg, names, c))
            && LocalesOk(x, cfg, names, only)
  {
    var cfg, names := ConfigOf(plan), NamesOf(streams, kinds);
    forall c | c in cfg.components
      ensures OwnedEntrypoint(cfg, names, c)
      ensures Selected(only, c) ==> ComponentLocalesOk(x, OwnedBy(names, c), cfg.components[c].locales)
    {
      BuiltComponentOk(x, rules, plan, c);
      NameOf(streams, plan.ownership, kinds, c);
    }
  }

  lemma DeepFromParts(x: Syntax, rules: Rules, plan: BuildPlan, r: Reader, kinds: seq<string>, only: string)
    requires PlanSound(x, rules, plan) && r.config == ConfigOf(plan) && StreamsHold(rules, r.streams, plan.ownership)
    requires kinds == OpenedFirst(r.components, only, |r.components|) && Distinct(kinds)
    requires forall k :: k in kinds <==> k in plan.ownership && Selected(only, k)
    requires only == "" || only in plan.ownership
    ensures DeepOk(x, rules, r, only)
  {
    BuiltPathsAcceptable(x, rules, plan, r.streams, kinds);
    OpenedOk(x, rules, plan, r.streams, kinds, only);
    SomeOpened(plan.ownership, kinds, only);
    forall i | 0 <= i < |kinds| ensures StreamSound(rules, OpenStream(r.streams, kinds[i])) {
      assert kinds[i] in kinds;
    }
  }

  /** Everything the checker asks of the opened components. */
  lemma BuiltDeepOk(x: Syntax, rules: Rules, plan: BuildPlan, mediaType: string, content: Contents, only: string)
    requires PlanSound(x, rules, plan) && Supported(mediaType) && WithinLimits(content, plan.ownership)
    requires only == "" || only in plan.ownership
    ensures DeepOk(x, rules, Built(plan, mediaType, content), only)
  {
    var r := Built(plan, mediaType, content);
    BuiltOpened(plan, mediaType, only);
    forall c | c in plan.ownership
      ensures StreamSound(rules, OpenStream(r.streams, c)) && FileNames(r.streams, c) == plan.ownership[c]
    {
      BuiltStream(x, rules, plan, mediaType, content, c);
    }
    DeepFromParts(x, rules, plan, r, OpenedFirst(r.components, only, |r.components|), only);
  }

  /** Build, then verify: whatever plan the program accepts, the artifact built from it within
      the default limits passes verification, deep or not, of one component or of all. */
  lemma BuildThenVerify(i: Inputs, plan: BuildPlan, mediaType: string, content: Contents, only: string,
                        metadataOnly: bool)
    requires IsPlan(i, Ok(plan)) && Supported(mediaType)
    requires WithinLimits(content, plan.ownership) && (only == "" || only in plan.ownership)
    ensures Sound(i.x, i.rules, Built(plan, mediaType, content), only, metadataOnly)
  {
    PlansAreSound(i, Ok(plan));
    BuiltMetadataOk(i.x, i.rules, plan, mediaType, content);
    BuiltDeepOk(i.x, i.rules, plan, mediaType, content, only);
  }
}
