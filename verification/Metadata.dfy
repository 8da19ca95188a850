/** The trust boundary of a document source (artifact/metadata.go): what a successful
    ValidateMetadata says about the components a source lists. */
module Metadata {
  import opened Prelude
  import opened StoreDisk
  import ArtifactVerify

  datatype Component = Component(kind: string, descriptor: Descriptor)

  /** A stable artifact reader: its root and configuration bytes, its decoded manifest and
      configuration, the components it lists, and the content it streams for each type. */
  datatype Source = Source(
    root: Digest, rootBytes: Bytes, configBytes: Bytes, manifest: Manifest, config: string,
    components: seq<Component>, content: map<string, Bytes>)

  function Kinds(components: seq<Component>): seq<string> {
    seq(|components|, i requires 0 <= i < |components| => components[i].kind)
  }

  function Descriptors(components: seq<Component>): seq<Descriptor> {
    seq(|components|, i requires 0 <= i < |components| => components[i].descriptor)
  }

  /** Digests of the first n components. */
  function ComponentDigests(components: seq<Component>, n: nat): set<Digest>
    requires n <= |components|
  {
    set i | 0 <= i < n :: components[i].descriptor.digest
  }

  /** The layers carry pairwise different component types. */
  ghost predicate LayersTyped(layers: seq<Descriptor>) {
    && (forall i :: 0 <= i < |layers| ==> layers[i].component.Some?)
    && (forall i, j :: 0 <= i < j < |layers| ==> layers[i].component != layers[j].component)
  }

  predicate IsLayer(layers: seq<Descriptor>, c: Component) {
    c.descriptor in layers && c.descriptor.component == Some(c.kind)
  }

  /** Every listed component is the layer of its type, and there are as many as layers. */
  ghost predicate ComponentsMatch(layers: seq<Descriptor>, components: seq<Component>) {
    && LayersTyped(layers)
    && |components| == |layers|
    && forall i :: 0 <= i < |components| ==> IsLayer(layers, components[i])
  }

  /** expected maps the component type of every layer to that layer. */
  ghost predicate Indexes(layers: seq<Descriptor>, expected: map<string, Descriptor>) {
    && (forall x :: x in layers ==> x.component.Some? && x.component.value in expected
                                    && expected[x.component.value] == x)
    && (forall k :: k in expected ==> expected[k] in layers && expected[k].component == Some(k))
  }

  lemma IndexStep(layers: seq<Descriptor>, layer: Descriptor, expected: map<string, Descriptor>)
    requires LayersTyped(layers) && Indexes(layers, expected)
    ensures LayersTyped(layers + [layer]) <==> layer.component.Some? && layer.component.value !in expected
    ensures layer.component.Some? && layer.component.value !in expected ==>
              Indexes(layers + [layer], expected[layer.component.value := layer])
  {
    var all := layers + [layer];
    assert all[|layers|] == layer;
    if layer.component.Some? {
      if layer.component.value in expected {
        var n :| 0 <= n < |layers| && layers[n] == expected[layer.component.value];
        assert all[n].component == all[|layers|].component;
      } else {
        forall n | 0 <= n < |layers| ensures layers[n].component != layer.component {
          assert layers[n] in layers;
        }
      }
    }
  }

  /** The map from component types to layers, or None if a type is missing or repeated. */
  function Index(layers: seq<Descriptor>): Option<map<string, Descriptor>>
    decreases |layers|
  {
    if layers == [] then Some(map[])
    else
      var last := layers[|layers| - 1];
      var expected := Index(layers[..|layers| - 1]);
      if expected.None? || last.component.None? || last.component.value in expected.value then None
      else Some(expected.value[last.component.value := last])
  }

  lemma TypedPrefix(layers: seq<Descriptor>, last: Descriptor)
    requires LayersTyped(layers + [last])
    ensures LayersTyped(layers)
  {
    forall i | 0 <= i < |layers| ensures layers[i].component.Some? {
      assert (layers + [last])[i] == layers[i];
    }
    forall i, j | 0 <= i < j < |layers| ensures layers[i].component != layers[j].component {
      assert (layers + [last])[i] == layers[i] && (layers + [last])[j] == layers[j];
    }
  }

  lemma {:induction false} IndexMeaning(layers: seq<Descriptor>)
    ensures Index(layers).Some? <==> LayersTyped(layers)
    ensures Index(layers).Some? ==> |Index(layers).value| == |layers| && Indexes(layers, Index(layers).value)
    decreases |layers|
  {
    if layers != [] {
      var rest, last := layers[..|layers| - 1], layers[|layers| - 1];
      IndexMeaning(rest);
      assert layers == rest + [last];
      if Index(rest).Some? {
        IndexStep(rest, last, Index(rest).value);
      } else if LayersTyped(rest + [last]) {
        TypedPrefix(rest, last);
      }
    }
  }

  lemma {:induction false} IndexStaysNone(layers: seq<Descriptor>, n: nat)
    requires n <= |layers| && Index(layers[..n]).None?
    ensures Index(layers).None?
    decreases |layers|
  {
    if n < |layers| {
      assert layers[..|layers| - 1][..n] == layers[..n];
      IndexStaysNone(layers[..|layers| - 1], n);
    } else {
      assert layers[..n] == layers;
    }
  }

  method IndexLayers(layers: seq<Descriptor>) returns (r: Option<map<string, Descriptor>>)
    ensures r == Index(layers)
  {
    var expected: map<string, Descriptor> := map[];
    var i := 0;
    while i < |layers|
      invariant i <= |layers| && Index(layers[..i]) == Some(expected)
    {
      var layer := layers[i];
      assert layers[..i + 1][..i] == layers[..i];
      if layer.component.None? || layer.component.value in expected {
        IndexStaysNone(layers, i + 1);
        return None;
      }
      expected := expected[layer.component.value := layer];
      i := i + 1;
    }
    assert layers[..i] == layers;
    return Some(expected);
  }

  /** validateReaderComponents. */
  method ValidateReaderComponents(m: Manifest, components: seq<Component>) returns (ok: bool)
    ensures ok <==> ComponentsMatch(m.layers, components)
  {
    var indexed := IndexLayers(m.layers);
    IndexMeaning(m.layers);
    if indexed.None? {
      return false;
    }
    var expected := indexed.value;
    if |components| != |expected| {
      return false;
    }
    var i := 0;
    while i < |components|
      invariant i <= |components|
      invariant forall n :: 0 <= n < i ==> IsLayer(m.layers, components[n])
    {
      var c := components[i];
      if c.kind !in expected || expected[c.kind] != c.descriptor {
        assert !IsLayer(m.layers, c);
        return false;
      }
      i := i + 1;
    }
    return true;
  }

  /** A matching source without repeated component types lists exactly the layers. */
  lemma MatchIsPermutation(layers: seq<Descriptor>, components: seq<Component>)
    requires ComponentsMatch(layers, components) && Distinct(Kinds(components))
    ensures multiset(Descriptors(components)) == multiset(layers)
  {
    var listed := Descriptors(components);
    forall i, j | 0 <= i < j < |listed| ensures listed[i] != listed[j] {
      assert IsLayer(layers, components[i]) && IsLayer(layers, components[j]);
      assert Kinds(components)[i] != Kinds(components)[j];
    }
    forall x | x in listed ensures x in layers {
      var i :| 0 <= i < |listed| && listed[i] == x;
      assert IsLayer(layers, components[i]);
    }
    Pigeonhole(listed, layers);
  }

  /** The count check alone is not enough: a source may list one of two layers twice. */
  lemma UniquenessIsNeeded() returns (layers: seq<Descriptor>, components: seq<Component>)
    ensures ComponentsMatch(layers, components)
    ensures multiset(Descriptors(components)) != multiset(layers)
  {
    var a, b := Descriptor("a", 1, Some("license")), Descriptor("b", 1, Some("security"));
    layers, components := [a, b], [Component("license", a), Component("license", a)];
    assert layers[0].component == Some("license") && layers[1].component == Some("security");
    assert "license"[0] != "security"[0];
    assert a in layers by { assert layers[0] == a; }
    assert b in multiset(layers) by { assert layers[1] == b; }
    assert Descriptors(components) == [a, a];
  }

  /** readMetadataBlob accepts content only under its own digest and within the limit. */
  predicate Authentic(codec: Codec, d: Digest, content: Bytes) {
    |content| <= MAX_METADATA_SIZE && codec.hash(content) == d
  }

  /** Every digest the manifest names is well formed. */
  ghost predicate DescriptorsValid(codec: Codec, m: Manifest) {
    codec.wellFormed(m.config) && forall i :: 0 <= i < |m.layers| ==> codec.wellFormed(m.layers[i].digest)
  }

  /** validateManifestDescriptors. */
  method ValidateManifestDescriptors(codec: Codec, m: Manifest) returns (ok: bool)
    ensures ok <==> DescriptorsValid(codec, m)
  {
    if !codec.wellFormed(m.config) {
      return false;
    }
    var i := 0;
    while i < |m.layers|
      invariant i <= |m.layers| && forall k :: 0 <= k < i ==> codec.wellFormed(m.layers[k].digest)
    {
      if !codec.wellFormed(m.layers[i].digest) {
        return false;
      }
      i := i + 1;
    }
    return true;
  }

  /** Root and configuration are what the source says they are, and the listed components are
      the manifest's layers. */
  ghost predicate MetadataValid(codec: Codec, src: Source) {
    && codec.wellFormed(src.root)
    && Authentic(codec, src.root, src.rootBytes)
    && codec.manifest(src.rootBytes) == Some(src.manifest)
    && DescriptorsValid(codec, src.manifest)
    && Authentic(codec, src.manifest.config, src.configBytes)
    && codec.config(src.configBytes) == Some(src.config)
    && ComponentsMatch(src.manifest.layers, src.components)
    && codec.shape(src.manifest)
    && Distinct(Kinds(src.components))
  }

  /** ValidateMetadata. */
  method ValidateMetadata(codec: Codec, src: Source) returns (ok: bool)
    ensures ok <==> MetadataValid(codec, src)
  {
    if !codec.wellFormed(src.root) || !Authentic(codec, src.root, src.rootBytes)
       || codec.manifest(src.rootBytes) != Some(src.manifest) {
      return false;
    }
    var descriptors := ValidateManifestDescriptors(codec, src.manifest);
    if !descriptors || !Authentic(codec, src.manifest.config, src.configBytes)
       || codec.config(src.configBytes) != Some(src.config) {
      return false;
    }
    var match_ := ValidateReaderComponents(src.manifest, src.components);
    if !match_ || !codec.shape(src.manifest) {
      return false;
    }
    var result := new ArtifactVerify.Verification();
    ArtifactVerify.VerifyComponentUniqueness(result, Kinds(src.components));
    ok := result.valid;
  }

  lemma KindsDiffer(components: seq<Component>)
    ensures Distinct(Kinds(components)) <==>
            forall i, j :: 0 <= i < j < |components| ==> components[i].kind != components[j].kind
  {
    var kinds := Kinds(components);
    if Distinct(kinds) {
      forall i, j | 0 <= i < j < |components| ensures components[i].kind != components[j].kind {
        assert kinds[i] != kinds[j];
      }
    }
  }

  /** What a valid source is, test by test: root and configuration are within the metadata limit
      and hash to the digests they go by, both decode to what the source reports, every digest is
      well formed, and the components are the layers, one for each type. */
  lemma MetadataExactly(codec: Codec, src: Source)
    ensures MetadataValid(codec, src) <==>
            && var (m, layers, listed) := (src.manifest, src.manifest.layers, src.components);
               && |src.rootBytes| <= 4194304 && |src.configBytes| <= 4194304
               && codec.hash(src.rootBytes) == src.root && codec.hash(src.configBytes) == m.config
               && codec.manifest(src.rootBytes) == Some(m) && codec.config(src.configBytes) == Some(src.config)
               && codec.wellFormed(src.root) && codec.wellFormed(m.config)
               && (forall i :: 0 <= i < |layers| ==> codec.wellFormed(layers[i].digest) && layers[i].component.Some?)
               && (forall i, j :: 0 <= i < j < |layers| ==> layers[i].component != layers[j].component)
               && |listed| == |layers|
               && (forall i :: 0 <= i < |listed| ==>
                     listed[i].descriptor in layers && listed[i].descriptor.component == Some(listed[i].kind))
               && (forall i, j :: 0 <= i < j < |listed| ==> listed[i].kind != listed[j].kind)
               && codec.shape(m)
  {
    KindsDiffer(src.components);
  }

  /** After a successful validation the configuration and the listed components are exactly
      what the manifest refers to. */
  lemma ValidSourceCoversManifest(codec: Codec, src: Source)
    requires MetadataValid(codec, src)
    ensures Refs(src.manifest) == {src.manifest.config} + ComponentDigests(src.components, |src.components|)
  {
    MatchIsPermutation(src.manifest.layers, src.components);
    var layers, listed := src.manifest.layers, Descriptors(src.components);
    forall d ensures d in Refs(src.manifest) <==>
                     d in {src.manifest.config} + ComponentDigests(src.components, |src.components|)
    {
      if d in Refs(src.manifest) && d != src.manifest.config {
        var i :| 0 <= i < |layers| && layers[i].digest == d;
        assert layers[i] in multiset(listed);
        var j :| 0 <= j < |listed| && listed[j] == layers[i];
        assert src.components[j].descriptor.digest == d;
      }
      if d in ComponentDigests(src.components, |src.components|) {
        var j :| 0 <= j < |src.components| && src.components[j].descriptor.digest == d;
        assert listed[j] in multiset(layers);
        var i :| 0 <= i < |layers| && layers[i] == listed[j];
      }
    }
  }
}
