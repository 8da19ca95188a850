/** The independent checker of a built artifact (artifact/verify.go, spec/validate.go). */
module ArtifactVerify {
  import opened Prelude
  import opened ManagedAnnotations
  import opened PathTrie
  import opened Limits
  import opened Entrypoints

  const MANIFEST_MEDIA_TYPE := "application/vnd.oci.image.manifest.v1+json"
  const ARTIFACT_TYPE := "application/vnd.ocidoc.documentation.v1beta"
  const CONFIG_MEDIA_TYPE := "application/vnd.ocidoc.documentation.config.v1beta+json"
  const LAYER_GZIP := "application/vnd.ocidoc.documentation.component.v1beta.tar+gzip"
  const LAYER_ZSTD := "application/vnd.ocidoc.documentation.component.v1beta.tar+zstd"
  const CONFIG_SCHEMA := "https://ocidoc.org/schema/artifact-config-v1beta.json"

  /** A component descriptor: its type and the media type of its layer. */
  datatype Layer = Layer(kind: string, mediaType: string)

  datatype Manifest = Manifest(
    mediaType: string, artifactType: string, configMediaType: string,
    layers: seq<Layer>, annotations: map<string, string>)

  datatype ArtifactLocale = ArtifactLocale(isDefault: bool, entrypoint: string, files: seq<string>)

  datatype ComponentConfig = ComponentConfig(entrypoint: string, locales: map<string, ArtifactLocale>)

  datatype ArtifactConfig = ArtifactConfig(
    schemaVersion: string, schema: string, components: map<string, ComponentConfig>)

  /** What reading a component yields: an error on opening or decompressing it, or tar entries,
      whether the tar reader reached a clean end, and whether both streams then checked out. */
  datatype Stream = Unopenable | Undecodable | Tar(entries: seq<Entry>, complete: bool, intact: bool)

  datatype Reader = Reader(
    manifest: Manifest, components: seq<Layer>, config: ArtifactConfig, streams: map<string, Stream>)

  datatype Check =
    | ManifestShape | Uniqueness | MediaType | ComponentsAnnotation | RootAnnotations | ConfigShape
    | KeysMatch | EntrypointShape | NotPresent | OpenComponent | Decompress | TarSafety | StreamEnd
    | EntrypointOwned | GlobalPaths | LocalePaths

  datatype Issue = Issue(component: string, check: Check)

  /** Verify's result. */
  class Verification {
    var issues: seq<Issue>
    var valid: bool

    constructor ()
      ensures issues == [] && valid
    {
      issues, valid := [], true;
    }

    /** valid is false exactly when an issue is recorded. */
    ghost predicate Consistent()
      reads this
    {
      valid <==> issues == []
    }

    method Fail(component: string, check: Check)
      modifies this
      ensures issues == old(issues) + [Issue(component, check)] && !valid
    {
      valid := false;
      issues := issues + [Issue(component, check)];
    }
  }

  function JoinComma(names: seq<string>): string {
    if names == [] then ""
    else if |names| == 1 then names[0]
    else names[0] + "," + JoinComma(names[1..])
  }

  /** The comma-separated fields of s. */
  function Fields(s: string): (fields: seq<string>)
    ensures fields != []
  {
    if s == "" then [""]
    else
      var rest := Fields(s[1..]);
      if s[0] == ',' then [""] + rest else [[s[0]] + rest[0]] + rest[1..]
  }

  lemma {:induction false} FieldsFirst(name: string, rest: string)
    requires ',' !in name
    ensures Fields(name) == [name]
    ensures Fields(name + "," + rest) == [name] + Fields(rest)
  {
    if name == "" {
      assert name + "," + rest == "," + rest;
    } else {
      FieldsFirst(name[1..], rest);
      assert name == [name[0]] + name[1..];
      assert (name + "," + rest)[1..] == name[1..] + "," + rest;
    }
  }

  /** A joined list can be read back: its fields are the list. */
  lemma {:induction false} FieldsOfJoin(names: seq<string>)
    requires names != [] && forall i :: 0 <= i < |names| ==> ',' !in names[i]
    ensures Fields(JoinComma(names)) == names
  {
    if |names| == 1 {
      FieldsFirst(names[0], "");
    } else {
      FieldsOfJoin(names[1..]);
      FieldsFirst(names[0], JoinComma(names[1..]));
    }
  }

  lemma {:induction false} JoinHead(c: char, fields: seq<string>)
    requires fields != []
    ensures JoinComma([[c] + fields[0]] + fields[1..]) == [c] + JoinComma(fields)
  {
    assert ([[c] + fields[0]] + fields[1..])[1..] == fields[1..];
    assert [c] + (fields[0] + "," + JoinComma(fields[1..])) == [c] + fields[0] + "," + JoinComma(fields[1..]);
  }

  /** And only the joined list has these fields. */
  lemma {:induction false} JoinOfFields(s: string)
    ensures JoinComma(Fields(s)) == s
  {
    if s != "" {
      JoinOfFields(s[1..]);
      if s[0] == ',' {
        assert ([""] + Fields(s[1..]))[1..] == Fields(s[1..]);
      } else {
        JoinHead(s[0], Fields(s[1..]));
      }
      assert [s[0]] + s[1..] == s;
    }
  }

  function Kinds(components: seq<Layer>): seq<string> {
    seq(|components|, i requires 0 <= i < |components| => components[i].kind)
  }

  predicate ShapeOk(m: Manifest) {
    m.mediaType == MANIFEST_MEDIA_TYPE && m.artifactType == ARTIFACT_TYPE
    && m.configMediaType == CONFIG_MEDIA_TYPE && m.layers != []
  }

  method VerifyManifestShape(result: Verification, m: Manifest)
    requires result.Consistent()
    modifies result
    ensures result.Consistent() && old(result.issues) <= result.issues
    ensures result.valid <==> old(result.valid) && ShapeOk(m)
  {
    if m.mediaType != MANIFEST_MEDIA_TYPE { result.Fail("", ManifestShape); }
    if m.artifactType != ARTIFACT_TYPE { result.Fail("", ManifestShape); }
    if m.configMediaType != CONFIG_MEDIA_TYPE { result.Fail("", ManifestShape); }
    if m.layers == [] { result.Fail("", ManifestShape); }
  }

  lemma DistinctPrefix(s: seq<string>, i: nat)
    requires i < |s|
    ensures Distinct(s[..i + 1]) <==> Distinct(s[..i]) && forall k :: 0 <= k < i ==> s[k] != s[i]
  {
    if Distinct(s[..i + 1]) {
      forall j, k | 0 <= j < k < i ensures s[..i][j] != s[..i][k] {
        assert s[..i + 1][j] == s[j] && s[..i + 1][k] == s[k];
      }
      forall k | 0 <= k < i ensures s[k] != s[i] {
        assert s[..i + 1][k] == s[k] && s[..i + 1][i] == s[i];
      }
    }
  }

  /** verifyComponentUniqueness, on the types of the listed components. */
  method VerifyComponentUniqueness(result: Verification, kinds: seq<string>)
    requires result.Consistent()
    modifies result
    ensures result.Consistent() && old(result.issues) <= result.issues
    ensures result.valid <==> old(result.valid) && Distinct(kinds)
  {
    var seen: set<string> := {};
    var i := 0;
    while i < |kinds|
      invariant i <= |kinds| && result.Consistent() && old(result.issues) <= result.issues
      invariant seen == set k | 0 <= k < i :: kinds[k]
      invariant result.valid <==> old(result.valid) && Distinct(kinds[..i])
    {
      var kind := kinds[i];
      DistinctPrefix(kinds, i);
      if kind in seen {
        result.Fail(kind, Uniqueness);
      }
      seen := seen + {kind};
      i := i + 1;
    }
    assert kinds[..i] == kinds;
  }

  predicate Supported(mediaType: string) {
    mediaType == LAYER_GZIP || mediaType == LAYER_ZSTD
  }

  ghost predicate MediaTypesOk(components: seq<Layer>) {
    forall i :: 0 <= i < |components| ==> Supported(components[i].mediaType)
  }

  method VerifyComponentMediaTypes(result: Verification, components: seq<Layer>)
    requires result.Consistent()
    modifies result
    ensures result.Consistent() && old(result.issues) <= result.issues
    ensures result.valid <==> old(result.valid) && MediaTypesOk(components)
  {
    var i := 0;
    while i < |components|
      invariant i <= |components| && result.Consistent() && old(result.issues) <= result.issues
      invariant result.valid <==> old(result.valid) && forall k :: 0 <= k < i ==> Supported(components[k].mediaType)
    {
      if !Supported(components[i].mediaType) {
        result.Fail(components[i].kind, MediaType);
      }
      i := i + 1;
    }
  }

  predicate AnnotationsOk(m: Manifest, components: seq<Layer>) {
    && Get(m.annotations, KEY_COMPONENTS) == JoinComma(Sort(Kinds(components)))
    && Get(m.annotations, KEY_SCHEMA) == SCHEMA_VERSION
    && Get(m.annotations, KEY_DOCUMENT) != ""
  }

  lemma KindsKeep(components: seq<Layer>)
    requires forall i :: 0 <= i < |components| ==> ',' !in components[i].kind
    ensures forall i :: 0 <= i < |Sort(Kinds(components))| ==> ',' !in Sort(Kinds(components))[i]
    ensures |Sort(Kinds(components))| == |components|
  {
    SortedMembers(Kinds(components));
    forall i | 0 <= i < |Sort(Kinds(components))| ensures ',' !in Sort(Kinds(components))[i] {
      assert Sort(Kinds(components))[i] in Kinds(components);
    }
  }

  /** For types without a comma, the annotations are in order exactly when the fields of the
      components annotation are the types in ascending order, the schema is the current one, and
      a document is named. */
  lemma AnnotationsExactly(m: Manifest, components: seq<Layer>)
    requires components != [] && forall i :: 0 <= i < |components| ==> ',' !in components[i].kind
    ensures AnnotationsOk(m, components) <==>
            && Fields(Get(m.annotations, "org.ocidoc.components")) == Sort(Kinds(components))
            && Get(m.annotations, "org.ocidoc.schema") == "v1beta"
            && Get(m.annotations, "org.ocidoc.document.id") != ""
  {
    KindsKeep(components);
    FieldsOfJoin(Sort(Kinds(components)));
    JoinOfFields(Get(m.annotations, KEY_COMPONENTS));
  }

  /** verifyComponentsAnnotation and verifyRootAnnotations. */
  method VerifyAnnotations(result: Verification, m: Manifest, components: seq<Layer>)
    requires result.Consistent()
    modifies result
    ensures result.Consistent() && old(result.issues) <= result.issues
    ensures result.valid <==> old(result.valid) && AnnotationsOk(m, components)
  {
    if Get(m.annotations, KEY_COMPONENTS) != JoinComma(Sort(Kinds(components))) {
      result.Fail("", ComponentsAnnotation);
    }
    if Get(m.annotations, KEY_SCHEMA) != SCHEMA_VERSION { result.Fail("", RootAnnotations); }
    if Get(m.annotations, KEY_DOCUMENT) == "" { result.Fail("", RootAnnotations); }
  }

  /** ValidateBundleEntrypoint accepts. */
  predicate EntrypointOk(rules: Rules, entrypoint: string) {
    entrypoint == "" || rules.fault(entrypoint).None?
  }

  ghost predicate FilesOk(rules: Rules, files: seq<string>) {
    AllValid(rules, files) && Distinct(files)
  }

  /** ValidateArtifactLocales accepts. */
  ghost predicate ArtifactLocalesOk(x: Syntax, rules: Rules, locales: map<string, ArtifactLocale>) {
    && (forall k :: k in locales ==>
          x.locale(k) && EntrypointOk(rules, locales[k].entrypoint) && FilesOk(rules, locales[k].files))
    && (forall j, k :: j in locales && k in locales && locales[j].isDefault && locales[k].isDefault ==> j == k)
  }

  method ValidateFiles(rules: Rules, files: seq<string>) returns (ok: bool)
    ensures ok <==> FilesOk(rules, files)
  {
    var seen: set<string> := {};
    var i := 0;
    while i < |files|
      invariant i <= |files|
      invariant seen == set k | 0 <= k < i :: files[k]
      invariant forall k :: 0 <= k < i ==> rules.fault(files[k]).None?
      invariant forall j, k :: 0 <= j < k < i ==> files[j] != files[k]
    {
      if rules.fault(files[i]).Some? || files[i] in seen {
        return false;
      }
      seen := seen + {files[i]};
      i := i + 1;
    }
    return true;
  }

  method ValidateArtifactLocales(x: Syntax, rules: Rules, locales: map<string, ArtifactLocale>) returns (ok: bool)
    ensures ok <==> ArtifactLocalesOk(x, rules, locales)
  {
    var defaults := 0;
    ghost var chosen := "";
    var todo := locales.Keys;
    while todo != {}
      invariant todo <= locales.Keys && 0 <= defaults <= 1
      invariant forall k :: k in locales && k !in todo ==>
                  x.locale(k) && EntrypointOk(rules, locales[k].entrypoint) && FilesOk(rules, locales[k].files)
      invariant forall k :: k in locales && k !in todo && locales[k].isDefault ==> defaults == 1 && k == chosen
      invariant defaults == 1 ==> chosen in locales && chosen !in todo && locales[chosen].isDefault
      decreases todo
    {
      var k :| k in todo;
      if !x.locale(k) || !EntrypointOk(rules, locales[k].entrypoint) {
        return false;
      }
      if locales[k].isDefault {
        defaults := defaults + 1;
      }
      if defaults > 1 {
        assert locales[k].isDefault && locales[chosen].isDefault && k != chosen;
        return false;
      }
      var valid := ValidateFiles(rules, locales[k].files);
      if !valid {
        return false;
      }
      if locales[k].isDefault {
        chosen := k;
      }
      todo := todo - {k};
    }
    return true;
  }

  /** ValidateArtifactConfig accepts. */
  ghost predicate ConfigOk(x: Syntax, rules: Rules, cfg: ArtifactConfig) {
    && cfg.schemaVersion == SCHEMA_VERSION && (cfg.schema == "" || cfg.schema == CONFIG_SCHEMA)
    && cfg.components.Keys != {}
    && forall c :: c in cfg.components ==>
         && x.component(c) && EntrypointOk(rules, cfg.components[c].entrypoint)
         && ArtifactLocalesOk(x, rules, cfg.components[c].locales)
  }

  method ValidateArtifactConfig(x: Syntax, rules: Rules, cfg: ArtifactConfig) returns (ok: bool)
    ensures ok <==> ConfigOk(x, rules, cfg)
  {
    if cfg.schemaVersion != SCHEMA_VERSION || (cfg.schema != "" && cfg.schema != CONFIG_SCHEMA)
       || cfg.components.Keys == {} {
      return false;
    }
    var todo := cfg.components.Keys;
    while todo != {}
      invariant todo <= cfg.components.Keys
      invariant forall c :: c in cfg.components && c !in todo ==>
                  && x.component(c) && EntrypointOk(rules, cfg.components[c].entrypoint)
                  && ArtifactLocalesOk(x, rules, cfg.components[c].locales)
      decreases todo
    {
      var c :| c in todo;
      todo := todo - {c};
      if !x.component(c) || !EntrypointOk(rules, cfg.components[c].entrypoint) {
        return false;
      }
      var valid := ValidateArtifactLocales(x, rules, cfg.components[c].locales);
      if !valid {
        return false;
      }
    }
    return true;
  }

  ghost predicate KeysOk(cfg: ArtifactConfig, components: seq<Layer>) {
    cfg.components.Keys == Elements(Kinds(components))
  }

  /** verifyConfigComponentsMatchManifest: both directions, each in any order. */
  method VerifyConfigComponents(result: Verification, cfg: ArtifactConfig, components: seq<Layer>)
    requires result.Consistent()
    modifies result
    ensures result.Consistent() && old(result.issues) <= result.issues
    ensures result.valid <==> old(result.valid) && KeysOk(cfg, components)
  {
    var inManifest := set i | 0 <= i < |components| :: components[i].kind;
    assert inManifest == Elements(Kinds(components)) by {
      forall k ensures k in inManifest <==> k in Kinds(components) {
        if k in inManifest {
          var i :| 0 <= i < |components| && components[i].kind == k;
          assert Kinds(components)[i] == k;
        }
      }
    }
    var todo := cfg.components.Keys;
    while todo != {}
      invariant todo <= cfg.components.Keys && result.Consistent() && old(result.issues) <= result.issues
      invariant result.valid <==> old(result.valid) && cfg.components.Keys - todo <= inManifest
      decreases todo
    {
      var c :| c in todo;
      todo := todo - {c};
      if c !in inManifest {
        result.Fail(c, KeysMatch);
      }
    }
    todo := inManifest;
    while todo != {}
      invariant todo <= inManifest && result.Consistent() && old(result.issues) <= result.issues
      invariant result.valid <==> old(result.valid) && cfg.components.Keys <= inManifest
                                  && inManifest - todo <= cfg.components.Keys
      decreases todo
    {
      var c :| c in todo;
      todo := todo - {c};
      if c !in cfg.components {
        result.Fail(c, KeysMatch);
      }
    }
  }

  ghost predicate EntrypointsOk(rules: Rules, cfg: ArtifactConfig) {
    forall c :: c in cfg.components ==> EntrypointOk(rules, cfg.components[c].entrypoint)
  }

  method VerifyEntrypointShape(result: Verification, rules: Rules, cfg: ArtifactConfig)
    requires result.Consistent()
    modifies result
    ensures result.Consistent() && old(result.issues) <= result.issues
    ensures result.valid <==> old(result.valid) && EntrypointsOk(rules, cfg)
  {
    var todo := cfg.components.Keys;
    while todo != {}
      invariant todo <= cfg.components.Keys && result.Consistent() && old(result.issues) <= result.issues
      invariant var sound := forall c :: c in cfg.components && c !in todo ==>
                               EntrypointOk(rules, cfg.components[c].entrypoint);
                result.valid <==> old(result.valid) && sound
      decreases todo
    {
      var c :| c in todo;
      todo := todo - {c};
      if !EntrypointOk(rules, cfg.components[c].entrypoint) {
        result.Fail(c, EntrypointShape);
      }
    }
  }

  /** Sizes of the first k entries together. */
  function SizeOfFirst(entries: seq<Entry>, k: nat): int
    requires k <= |entries|
  {
    if k == 0 then 0 else SizeOfFirst(entries, k - 1) + entries[k - 1].size
  }

  /** Entry k is a regular file with a valid name, within every limit. */
  ghost predicate EntrySafe(rules: Rules, entries: seq<Entry>, k: nat)
    requires k < |entries|
  {
    var e := entries[k];
    && k < DEFAULT_MAX_FILES
    && 0 <= e.size <= DEFAULT_MAX_FILE_SIZE && SizeOfFirst(entries, k) + e.size <= DEFAULT_MAX_TOTAL_SIZE
    && e.size <= |e.data| && e.regular && rules.fault(e.name).None?
  }

  ghost predicate TarSafe(rules: Rules, entries: seq<Entry>) {
    forall k :: 0 <= k < |entries| ==> EntrySafe(rules, entries, k)
  }

  /** The stream opens, and everything in it checks out. */
  ghost predicate StreamSound(rules: Rules, stream: Stream) {
    stream.Tar? && TarSafe(rules, stream.entries) && stream.complete && stream.intact
  }

  /** verifyComponentTarSafety. */
  method VerifyTarSafety(result: Verification, rules: Rules, kind: string, entries: seq<Entry>, clean: bool)
    returns (paths: seq<string>, complete: bool)
    requires result.Consistent()
    modifies result
    ensures result.Consistent() && old(result.issues) <= result.issues
    ensures result.valid <==> old(result.valid) && TarSafe(rules, entries) && clean
    ensures complete && TarSafe(rules, entries) ==> paths == Names(entries)
    ensures TarSafe(rules, entries) && clean ==> complete
    ensures complete ==> clean
  {
    paths := [];
    var total: Int64 := 0;
    var k := 0;
    while k < |entries|
      invariant k <= |entries| && result.Consistent() && old(result.issues) <= result.issues
      invariant 0 <= total <= DEFAULT_MAX_TOTAL_SIZE && total == SizeOfFirst(entries, k)
      invariant var safe := forall j :: 0 <= j < k ==> EntrySafe(rules, entries, j);
                (result.valid <==> old(result.valid) && safe) && (safe ==> paths == Names(entries[..k]))
    {
      var e := entries[k];
      assert !EntrySafe(rules, entries, k) ==> !TarSafe(rules, entries);
      if k + 1 > DEFAULT_MAX_FILES {
        result.Fail(kind, TarSafety);
        return paths, false;
      }
      if e.size < 0 || e.size > DEFAULT_MAX_FILE_SIZE || total > DEFAULT_MAX_TOTAL_SIZE - e.size {
        result.Fail(kind, TarSafety);
        return paths, false;
      }
      if |e.data| < e.size {
        result.Fail(kind, TarSafety);
        return paths, false;
      }
      total := total + e.size;
      assert entries[..k + 1] == entries[..k] + [e];
      if !e.regular {
        result.Fail(kind, TarSafety);
      } else if rules.fault(e.name).Some? {
        result.Fail(kind, TarSafety);
      } else {
        paths := paths + [e.name];
      }
      k := k + 1;
    }
    assert entries[..k] == entries;
    complete := clean;
    if !clean {
      result.Fail(kind, TarSafety);
    }
  }

  /** verifyComponentDeep. */
  method VerifyComponentDeep(result: Verification, rules: Rules, kind: string, stream: Stream)
    returns (paths: seq<string>)
    requires result.Consistent()
    modifies result
    ensures result.Consistent() && old(result.issues) <= result.issues
    ensures result.valid <==> old(result.valid) && StreamSound(rules, stream)
    ensures StreamSound(rules, stream) ==> paths == Names(stream.entries)
  {
    match stream {
      case Unopenable =>
        result.Fail(kind, OpenComponent);
        paths := [];
      case Undecodable =>
        result.Fail(kind, Decompress);
        paths := [];
      case Tar(entries, clean, intact) =>
        var complete;
        paths, complete := VerifyTarSafety(result, rules, kind, entries, clean);
        if complete && !intact {
          result.Fail(kind, StreamEnd);
        }
    }
  }

  predicate Selected(only: string, kind: string) {
    only == "" || kind == only
  }

  /** The first n components that deep verification opens. */
  function OpenedFirst(components: seq<Layer>, only: string, n: nat): seq<string>
    requires n <= |components|
  {
    if n == 0 then []
    else
      var before := OpenedFirst(components, only, n - 1);
      if Selected(only, components[n - 1].kind) then before + [components[n - 1].kind] else before
  }

  function OpenStream(streams: map<string, Stream>, kind: string): Stream {
    if kind in streams then streams[kind] else Unopenable
  }

  /** The file names of a component; meaningful when its stream is sound. */
  function FileNames(streams: map<string, Stream>, kind: string): seq<string> {
    match OpenStream(streams, kind)
    case Tar(entries, _, _) => Names(entries)
    case _ => []
  }

  function AllNames(streams: map<string, Stream>, kinds: seq<string>): seq<string>
    decreases |kinds|
  {
    if kinds == [] then []
    else AllNames(streams, kinds[..|kinds| - 1]) + FileNames(streams, kinds[|kinds| - 1])
  }

  ghost predicate StreamsSound(rules: Rules, streams: map<string, Stream>, kinds: seq<string>) {
    forall i :: 0 <= i < |kinds| ==> StreamSound(rules, OpenStream(streams, kinds[i]))
  }

  /** The names of every opened component. */
  ghost function NamesOf(streams: map<string, Stream>, kinds: seq<string>): map<string, seq<string>> {
    map c | c in Elements(kinds) :: FileNames(streams, c)
  }

  /** The names of every opened component, and of all of them together. */
  ghost predicate Collected(streams: map<string, Stream>, kinds: seq<string>, byComponent: map<string, seq<string>>,
                            allPaths: seq<string>)
  {
    allPaths == AllNames(streams, kinds) && byComponent == NamesOf(streams, kinds)
  }

  lemma CollectOne(streams: map<string, Stream>, kinds: seq<string>, byComponent: map<string, seq<string>>,
                   allPaths: seq<string>, kind: string)
    ensures Collected(streams, kinds, byComponent, allPaths) ==>
              Collected(streams, kinds + [kind], byComponent[kind := FileNames(streams, kind)],
                        allPaths + FileNames(streams, kind))
  {
    var more := kinds + [kind];
    assert more[..|more| - 1] == kinds && more[|more| - 1] == kind;
    assert Elements(more) == Elements(kinds) + {kind};
  }

  lemma OpenOne(rules: Rules, streams: map<string, Stream>, kinds: seq<string>, kind: string)
    ensures StreamsSound(rules, streams, kinds + [kind]) <==>
            StreamsSound(rules, streams, kinds) && StreamSound(rules, OpenStream(streams, kind))
  {
    var more := kinds + [kind];
    if StreamsSound(rules, streams, more) {
      forall i | 0 <= i < |kinds| ensures StreamSound(rules, OpenStream(streams, kinds[i])) {
        assert more[i] == kinds[i];
      }
      assert more[|kinds|] == kind;
    }
  }

  /** Opens the selected components one after another. */
  method OpenComponents(result: Verification, rules: Rules, r: Reader, only: string)
    returns (byComponent: map<string, seq<string>>, allPaths: seq<string>, found: bool)
    requires result.Consistent()
    modifies result
    ensures result.Consistent() && old(result.issues) <= result.issues
    ensures var kinds := OpenedFirst(r.components, only, |r.components|);
            && (result.valid <==> old(result.valid) && StreamsSound(rules, r.streams, kinds))
            && (found <==> only == "" || kinds != [])
            && (StreamsSound(rules, r.streams, kinds) ==> Collected(r.streams, kinds, byComponent, allPaths))
  {
    byComponent, allPaths, found := map[], [], only == "";
    ghost var kinds: seq<string> := [];
    var i := 0;
    while i < |r.components|
      invariant i <= |r.components| && result.Consistent() && old(result.issues) <= result.issues
      invariant kinds == OpenedFirst(r.components, only, i)
      invariant found <==> only == "" || kinds != []
      invariant result.valid <==> old(result.valid) && StreamsSound(rules, r.streams, kinds)
      invariant StreamsSound(rules, r.streams, kinds) ==> Collected(r.streams, kinds, byComponent, allPaths)
    {
      var c := r.components[i];
      i := i + 1;
      if Selected(only, c.kind) {
        found := true;
        var paths := VerifyComponentDeep(result, rules, c.kind, OpenStream(r.streams, c.kind));
        OpenOne(rules, r.streams, kinds, c.kind);
        CollectOne(r.streams, kinds, byComponent, allPaths, c.kind);
        byComponent := byComponent[c.kind := paths];
        allPaths := allPaths + paths;
        kinds := kinds + [c.kind];
      }
    }
  }

  /** The entrypoint of an opened component is one of its files. */
  predicate OwnedEntrypoint(cfg: ArtifactConfig, byComponent: map<string, seq<string>>, c: string)
    requires c in cfg.components
  {
    cfg.components[c].entrypoint == "" || c !in byComponent || cfg.components[c].entrypoint in byComponent[c]
  }

  method VerifyOwnedEntrypoints(result: Verification, cfg: ArtifactConfig, byComponent: map<string, seq<string>>)
    requires result.Consistent()
    modifies result
    ensures result.Consistent() && old(result.issues) <= result.issues
    ensures var sound := forall c :: c in cfg.components ==> OwnedEntrypoint(cfg, byComponent, c);
            result.valid <==> old(result.valid) && sound
  {
    var todo := cfg.components.Keys;
    while todo != {}
      invariant todo <= cfg.components.Keys && result.Consistent() && old(result.issues) <= result.issues
      invariant var sound := forall c :: c in cfg.components && c !in todo ==> OwnedEntrypoint(cfg, byComponent, c);
                result.valid <==> old(result.valid) && sound
      decreases todo
    {
      var c :| c in todo;
      todo := todo - {c};
      if !OwnedEntrypoint(cfg, byComponent, c) {
        result.Fail(c, EntrypointOwned);
      }
    }
  }

  /** A locale lists owned documents only, its entrypoint among them. */
  predicate LocaleFilesOk(x: Syntax, owned: seq<string>, l: ArtifactLocale) {
    && (l.entrypoint == "" || l.entrypoint in l.files)
    && forall p :: p in l.files ==> p in owned && x.document(p)
  }

  method VerifyLocale(result: Verification, x: Syntax, component: string, owned: set<string>, l: ArtifactLocale,
                      ghost files: seq<string>)
    requires result.Consistent() && owned == Elements(files)
    modifies result
    ensures result.Consistent() && old(result.issues) <= result.issues
    ensures result.valid <==> old(result.valid) && LocaleFilesOk(x, files, l)
  {
    if l.entrypoint != "" && l.entrypoint !in l.files {
      result.Fail(component, LocalePaths);
    }
    var i := 0;
    while i < |l.files|
      invariant i <= |l.files| && result.Consistent() && old(result.issues) <= result.issues
      invariant var sound := forall k :: 0 <= k < i ==> l.files[k] in files && x.document(l.files[k]);
                result.valid <==> old(result.valid) && (l.entrypoint == "" || l.entrypoint in l.files) && sound
    {
      var path := l.files[i];
      assert path in l.files;
      i := i + 1;
      if path !in owned {
        result.Fail(component, LocalePaths);
        continue;
      }
      if !x.document(path) {
        result.Fail(component, LocalePaths);
      }
    }
  }

  function OwnedBy(byComponent: map<string, seq<string>>, c: string): seq<string> {
    if c in byComponent then byComponent[c] else []
  }

  ghost predicate ComponentLocalesOk(x: Syntax, owned: seq<string>, locales: map<string, ArtifactLocale>) {
    forall k :: k in locales ==> LocaleFilesOk(x, owned, locales[k])
  }

  method VerifyComponentLocales(result: Verification, x: Syntax, component: string, owned: seq<string>,
                                locales: map<string, ArtifactLocale>)
    requires result.Consistent()
    modifies result
    ensures result.Consistent() && old(result.issues) <= result.issues
    ensures result.valid <==> old(result.valid) && ComponentLocalesOk(x, owned, locales)
  {
    var members := set p | p in owned;
    var todo := locales.Keys;
    while todo != {}
      invariant todo <= locales.Keys && result.Consistent() && old(result.issues) <= result.issues
      invariant var sound := forall k :: k in locales && k !in todo ==> LocaleFilesOk(x, owned, locales[k]);
                result.valid <==> old(result.valid) && sound
      decreases todo
    {
      var k :| k in todo;
      todo := todo - {k};
      VerifyLocale(result, x, component, members, locales[k], owned);
    }
  }

  ghost predicate LocalesOk(x: Syntax, cfg: ArtifactConfig, byComponent: map<string, seq<string>>, only: string) {
    forall c :: c in cfg.components && Selected(only, c) ==>
      ComponentLocalesOk(x, OwnedBy(byComponent, c), cfg.components[c].locales)
  }

  /** verifyLocalePaths. */
  method VerifyLocalePaths(result: Verification, x: Syntax, cfg: ArtifactConfig,
                           byComponent: map<string, seq<string>>, only: string)
    requires result.Consistent()
    modifies result
    ensures result.Consistent() && old(result.issues) <= result.issues
    ensures result.valid <==> old(result.valid) && LocalesOk(x, cfg, byComponent, only)
  {
    var todo := cfg.components.Keys;
    while todo != {}
      invariant todo <= cfg.components.Keys && result.Consistent() && old(result.issues) <= result.issues
      invariant var sound := forall c :: c in cfg.components && c !in todo && Selected(only, c) ==>
                               ComponentLocalesOk(x, OwnedBy(byComponent, c), cfg.components[c].locales);
                result.valid <==> old(result.valid) && sound
      decreases todo
    {
      var c :| c in todo;
      todo := todo - {c};
      if !Selected(only, c) {
        continue;
      }
      VerifyComponentLocales(result, x, c, OwnedBy(byComponent, c), cfg.components[c].locales);
    }
  }

  /** What deep verification demands of the opened components. */
  ghost predicate DeepOk(x: Syntax, rules: Rules, r: Reader, only: string) {
    var kinds := OpenedFirst(r.components, only, |r.components|);
    var names := NamesOf(r.streams, kinds);
    && StreamsSound(rules, r.streams, kinds)
    && (only == "" || kinds != [])
    && (forall c :: c in r.config.components ==> OwnedEntrypoint(r.config, names, c))
    && Acceptable(rules, AllNames(r.streams, kinds))
    && LocalesOk(x, r.config, names, only)
  }

  /** verifyComponentsDeep. */
  method VerifyComponentsDeep(result: Verification, x: Syntax, rules: Rules, r: Reader, only: string)
    requires result.Consistent() && Sensible(rules)
    modifies result
    ensures result.Consistent() && old(result.issues) <= result.issues
    ensures result.valid <==> old(result.valid) && DeepOk(x, rules, r, only)
  {
    ghost var kinds := OpenedFirst(r.components, only, |r.components|);
    var byComponent, allPaths, found := OpenComponents(result, rules, r, only);
    if !found {
      result.Fail(only, NotPresent);
      return;
    }
    VerifyOwnedEntrypoints(result, r.config, byComponent);
    var verdict := ValidateBundlePaths(rules, allPaths);
    AcceptsExactly(rules, allPaths);
    if verdict != Accepted {
      result.Fail("", GlobalPaths);
    }
    VerifyLocalePaths(result, x, r.config, byComponent, only);
  }

  ghost predicate MetadataOk(x: Syntax, rules: Rules, r: Reader) {
    && ShapeOk(r.manifest) && Distinct(Kinds(r.components)) && MediaTypesOk(r.components)
    && AnnotationsOk(r.manifest, r.components) && ConfigOk(x, rules, r.config)
    && KeysOk(r.config, r.components) && EntrypointsOk(rules, r.config)
  }

  ghost predicate Sound(x: Syntax, rules: Rules, r: Reader, only: string, metadataOnly: bool) {
    MetadataOk(x, rules, r) && (metadataOnly || DeepOk(x, rules, r, only))
  }

  /** A path that is valid, or left out. */
  ghost predicate Given(rules: Rules, path: string) {
    path != "" ==> rules.fault(path).None?
  }

  /** What a valid configuration is, told on its fields. */
  lemma ConfigExactly(x: Syntax, rules: Rules, cfg: ArtifactConfig)
    ensures ConfigOk(x, rules, cfg) <==>
            && cfg.schemaVersion == "v1beta"
            && (cfg.schema == "" || cfg.schema == "https://ocidoc.org/schema/artifact-config-v1beta.json")
            && cfg.components != map[]
            && forall c :: c in cfg.components ==>
                 && x.component(c) && Given(rules, cfg.components[c].entrypoint)
                 && var locales := cfg.components[c].locales;
                    && (forall k :: k in locales ==>
                          && x.locale(k) && Given(rules, locales[k].entrypoint)
                          && (forall i :: 0 <= i < |locales[k].files| ==> rules.fault(locales[k].files[i]).None?)
                          && forall i, j :: 0 <= i < j < |locales[k].files| ==>
                               locales[k].files[i] != locales[k].files[j])
                    && forall j, k :: j in locales && k in locales && locales[j].isDefault && locales[k].isDefault ==>
                         j == k
  {
    assert cfg.components.Keys == {} <==> cfg.components == map[];
  }

  lemma KindsDiffer(components: seq<Layer>)
    ensures Distinct(Kinds(components)) <==>
            forall i, j :: 0 <= i < j < |components| ==> components[i].kind != components[j].kind
  {
    if Distinct(Kinds(components)) {
      forall i, j | 0 <= i < j < |components| ensures components[i].kind != components[j].kind {
        assert Kinds(components)[i] != Kinds(components)[j];
      }
    }
  }

  lemma KeysExactly(cfg: ArtifactConfig, components: seq<Layer>)
    ensures KeysOk(cfg, components) <==>
            && (forall c :: c in cfg.components ==> exists i :: 0 <= i < |components| && components[i].kind == c)
            && forall i :: 0 <= i < |components| ==> components[i].kind in cfg.components
  {
    var kinds := Kinds(components);
    assert forall i :: 0 <= i < |components| ==> kinds[i] == components[i].kind;
    forall c ensures c in Elements(kinds) <==> exists i :: 0 <= i < |components| && components[i].kind == c {
      if c in kinds {
        var i :| 0 <= i < |kinds| && kinds[i] == c;
        assert components[i].kind == c;
      }
      if i :| 0 <= i < |components| && components[i].kind == c { assert kinds[i] == c; }
    }
  }

  lemma MediaTypesExactly(components: seq<Layer>)
    ensures MediaTypesOk(components) <==>
            forall i :: 0 <= i < |components| ==>
              || components[i].mediaType == "application/vnd.ocidoc.documentation.component.v1beta.tar+gzip"
              || components[i].mediaType == "application/vnd.ocidoc.documentation.component.v1beta.tar+zstd"
  {
  }

  /** What sound metadata is, for types without a comma. */
  lemma {:induction false} MetadataOkExactly(x: Syntax, rules: Rules, r: Reader)
    requires forall i :: 0 <= i < |r.components| ==> ',' !in r.components[i].kind
    requires r.components != []
    ensures MetadataOk(x, rules, r) <==>
            && r.manifest.mediaType == "application/vnd.oci.image.manifest.v1+json"
            && r.manifest.artifactType == "application/vnd.ocidoc.documentation.v1beta"
            && r.manifest.configMediaType == "application/vnd.ocidoc.documentation.config.v1beta+json"
            && r.manifest.layers != []
            && (forall i, j :: 0 <= i < j < |r.components| ==> r.components[i].kind != r.components[j].kind)
            && (forall i :: 0 <= i < |r.components| ==>
                  || r.components[i].mediaType == "application/vnd.ocidoc.documentation.component.v1beta.tar+gzip"
                  || r.components[i].mediaType == "application/vnd.ocidoc.documentation.component.v1beta.tar+zstd")
            && Fields(Get(r.manifest.annotations, "org.ocidoc.components")) == Sort(Kinds(r.components))
            && Get(r.manifest.annotations, "org.ocidoc.schema") == "v1beta"
            && Get(r.manifest.annotations, "org.ocidoc.document.id") != ""
            && ConfigOk(x, rules, r.config)
            && (forall c :: c in r.config.components ==>
                  exists i :: 0 <= i < |r.components| && r.components[i].kind == c)
            && forall i :: 0 <= i < |r.components| ==> r.components[i].kind in r.config.components
  {
    AnnotationsExactly(r.manifest, r.components);
    KindsDiffer(r.components);
    KeysExactly(r.config, r.components);
    MediaTypesExactly(r.components);
    assert ConfigOk(x, rules, r.config) ==> EntrypointsOk(rules, r.config);
  }

  /** Verify: valid exactly when the artifact meets every condition. */
  method Verify(x: Syntax, rules: Rules, r: Reader, only: string, metadataOnly: bool) returns (result: Verification)
    requires Sensible(rules)
    ensures fresh(result) && result.Consistent()
    ensures result.valid <==> Sound(x, rules, r, only, metadataOnly)
  {
    result := new Verification();
    VerifyManifestShape(result, r.manifest);
    VerifyComponentUniqueness(result, Kinds(r.components));
    VerifyComponentMediaTypes(result, r.components);
    VerifyAnnotations(result, r.manifest, r.components);
    var valid := ValidateArtifactConfig(x, rules, r.config);
    if !valid {
      result.Fail("", ConfigShape);
    }
    VerifyConfigComponents(result, r.config, r.components);
    VerifyEntrypointShape(result, rules, r.config);
    if !metadataOnly {
      VerifyComponentsDeep(result, x, rules, r, only);
    }
  }
}
