/** Comparison of two artifacts (artifact/diff.go): keyed differences in key order, and the
    report built from them. */
module Diff {
  import opened Prelude

  function Look<V>(m: map<string, V>, k: string): Option<V> {
    if k in m then Some(m[k]) else None
  }

  /** One key whose value, or presence, differs. */
  datatype Delta<V> = Delta(key: string, before: Option<V>, after: Option<V>)

  /** The differing keys among the given ones, in their order. */
  function DeltasAmong<V(==)>(keys: seq<string>, before: map<string, V>, after: map<string, V>): seq<Delta<V>> {
    if keys == [] then []
    else
      var rest := DeltasAmong(keys[1..], before, after);
      if Look(before, keys[0]) == Look(after, keys[0]) then rest
      else [Delta(keys[0], Look(before, keys[0]), Look(after, keys[0]))] + rest
  }

  /** The differences of two maps, in key order. */
  ghost function Deltas<V>(before: map<string, V>, after: map<string, V>): seq<Delta<V>> {
    DeltasAmong(Listing(before.Keys + after.Keys), before, after)
  }

  /** unionKeys. */
  method UnionKeys<V>(a: map<string, V>, b: map<string, V>) returns (keys: seq<string>)
    ensures keys == Listing(a.Keys + b.Keys)
  {
    keys := SortedKeys(a.Keys + b.Keys);
  }

  lemma {:induction false} DeltasAppend<V>(keys: seq<string>, k: string, before: map<string, V>, after: map<string, V>)
    ensures DeltasAmong(keys + [k], before, after) ==
            DeltasAmong(keys, before, after) + DeltasAmong([k], before, after)
  {
    if keys == [] {
      assert keys + [k] == [k];
    } else {
      assert (keys + [k])[1..] == keys[1..] + [k];
      DeltasAppend(keys[1..], k, before, after);
    }
  }

  lemma {:induction false} AmongMeaning<V>(keys: seq<string>, before: map<string, V>, after: map<string, V>,
                                           d: Delta<V>)
    ensures d in DeltasAmong(keys, before, after) <==>
            && d.key in keys && d.before == Look(before, d.key) && d.after == Look(after, d.key)
            && d.before != d.after
  {
    if keys != [] { AmongMeaning(keys[1..], before, after, d); }
  }

  /** The differences are exactly the keys whose value or presence differs, with both values. */
  lemma DeltasExactly<V>(before: map<string, V>, after: map<string, V>, d: Delta<V>)
    ensures d in Deltas(before, after) <==>
            d.before == Look(before, d.key) && d.after == Look(after, d.key) && d.before != d.after
  {
    ListingMembers(before.Keys + after.Keys);
    AmongMeaning(Listing(before.Keys + after.Keys), before, after, d);
  }

  /** Keys in strictly ascending order. */
  ghost predicate KeysAscend<V>(ds: seq<Delta<V>>) {
    forall i, j :: 0 <= i < j < |ds| ==> Lt(ds[i].key, ds[j].key)
  }

  lemma {:induction false} AmongAscends<V>(keys: seq<string>, before: map<string, V>, after: map<string, V>)
    requires StrictlyAscending(keys)
    ensures KeysAscend(DeltasAmong(keys, before, after))
  {
    if keys != [] {
      AmongAscends(keys[1..], before, after);
      var rest := DeltasAmong(keys[1..], before, after);
      forall j | 0 <= j < |rest| ensures Lt(keys[0], rest[j].key) {
        AmongMeaning(keys[1..], before, after, rest[j]);
        var i :| 0 <= i < |keys[1..]| && keys[1..][i] == rest[j].key;
        assert Lt(keys[0], keys[i + 1]);
      }
    }
  }

  lemma DeltasAscend<V>(before: map<string, V>, after: map<string, V>)
    ensures KeysAscend(Deltas(before, after))
  {
    ListingLists(before.Keys + after.Keys);
    AmongAscends(Listing(before.Keys + after.Keys), before, after);
  }

  function Set<V>(m: map<string, V>, k: string, v: Option<V>): map<string, V> {
    if v.Some? then m[k := v.value] else m - {k}
  }

  /** Applying differences as a patch, one after another. */
  function Patch<V>(m: map<string, V>, ds: seq<Delta<V>>): map<string, V>
    decreases |ds|
  {
    if ds == [] then m else Patch(Set(m, ds[0].key, ds[0].after), ds[1..])
  }

  lemma {:induction false} PatchAt<V>(m: map<string, V>, ds: seq<Delta<V>>, k: string)
    requires KeysAscend(ds)
    ensures (forall d :: d in ds ==> d.key != k) ==> Look(Patch(m, ds), k) == Look(m, k)
    ensures forall d :: d in ds && d.key == k ==> Look(Patch(m, ds), k) == d.after
    decreases |ds|
  {
    if ds != [] {
      PatchAt(Set(m, ds[0].key, ds[0].after), ds[1..], k);
      assert ds == [ds[0]] + ds[1..];
      forall d | d in ds[1..] ensures d.key != ds[0].key {
        var i :| 0 <= i < |ds[1..]| && ds[1..][i] == d;
        assert Lt(ds[0].key, ds[i + 1].key);
      }
    }
  }

  lemma SameLooks<V>(a: map<string, V>, b: map<string, V>)
    requires forall k :: Look(a, k) == Look(b, k)
    ensures a == b
  {
    forall k ensures k in a <==> k in b { assert Look(a, k) == Look(b, k); }
    forall k | k in a ensures a[k] == b[k] { assert Look(a, k) == Look(b, k); }
  }

  /** A difference is a patch: applied to the first map it yields the second. */
  lemma PatchYieldsAfter<V>(before: map<string, V>, after: map<string, V>)
    ensures Patch(before, Deltas(before, after)) == after
  {
    var ds := Deltas(before, after);
    DeltasAscend(before, after);
    forall k ensures Look(Patch(before, ds), k) == Look(after, k) {
      PatchAt(before, ds, k);
      DeltasExactly(before, after, Delta(k, Look(before, k), Look(after, k)));
      forall d | d in ds && d.key == k ensures d.after == Look(after, k) { DeltasExactly(before, after, d); }
      if Look(before, k) == Look(after, k) {
        forall d | d in ds ensures d.key != k { DeltasExactly(before, after, d); }
      }
    }
    SameLooks(Patch(before, ds), after);
  }

  /** Nothing differs exactly when the maps are equal. */
  lemma NoDeltas<V>(before: map<string, V>, after: map<string, V>)
    ensures Deltas(before, after) == [] <==> before == after
  {
    var ds := Deltas(before, after);
    if ds == [] {
      PatchYieldsAfter(before, after);
    } else {
      assert ds[0] in ds;
      DeltasExactly(before, after, ds[0]);
    }
  }

  function Swap<V>(d: Delta<V>): Delta<V> {
    Delta(d.key, d.after, d.before)
  }

  function Swapped<V>(ds: seq<Delta<V>>): seq<Delta<V>> {
    if ds == [] then [] else [Swap(ds[0])] + Swapped(ds[1..])
  }

  lemma {:induction false} AmongMirrored<V>(keys: seq<string>, before: map<string, V>, after: map<string, V>)
    ensures DeltasAmong(keys, after, before) == Swapped(DeltasAmong(keys, before, after))
  {
    if keys != [] { AmongMirrored(keys[1..], before, after); }
  }

  /** Swapping the arguments mirrors every entry, in the same order. */
  lemma DeltasMirror<V>(before: map<string, V>, after: map<string, V>)
    ensures Deltas(after, before) == Swapped(Deltas(before, after))
  {
    assert before.Keys + after.Keys == after.Keys + before.Keys;
    AmongMirrored(Listing(before.Keys + after.Keys), before, after);
  }

  /** AnnotationDiff: an absent value reads as the empty string, with a flag beside it. */
  datatype AnnotationDiff = AnnotationDiff(key: string, before: string, after: string, beforeSet: bool, afterSet: bool)

  function ValueOf(v: Option<string>): string {
    if v.Some? then v.value else ""
  }

  function EncodeAnnotation(d: Delta<string>): AnnotationDiff {
    AnnotationDiff(d.key, ValueOf(d.before), ValueOf(d.after), d.before.Some?, d.after.Some?)
  }

  function DecodeAnnotation(d: AnnotationDiff): Delta<string> {
    Delta(d.key, if d.beforeSet then Some(d.before) else None, if d.afterSet then Some(d.after) else None)
  }

  function Encoded<A, B>(ds: seq<A>, encode: A -> B): seq<B> {
    if ds == [] then [] else [encode(ds[0])] + Encoded(ds[1..], encode)
  }

  lemma {:induction false} EncodedConcat<A, B>(a: seq<A>, b: seq<A>, encode: A -> B)
    ensures Encoded(a + b, encode) == Encoded(a, encode) + Encoded(b, encode)
  {
    if a == [] {
      assert a + b == b;
    } else {
      assert (a + b)[1..] == a[1..] + b;
      EncodedConcat(a[1..], b, encode);
    }
  }

  /** One more key adds its entry, if it differs. */
  lemma NextEncoded<V, B>(keys: seq<string>, i: nat, before: map<string, V>, after: map<string, V>,
                          encode: Delta<V> -> B)
    requires i < |keys|
    ensures var d := Delta(keys[i], Look(before, keys[i]), Look(after, keys[i]));
            Encoded(DeltasAmong(keys[..i + 1], before, after), encode) ==
            Encoded(DeltasAmong(keys[..i], before, after), encode) + if d.before == d.after then [] else [encode(d)]
  {
    var k := keys[i];
    DeltasAppend(keys[..i], k, before, after);
    assert keys[..i + 1] == keys[..i] + [k];
    EncodedConcat(DeltasAmong(keys[..i], before, after), DeltasAmong([k], before, after), encode);
  }

  method AnnotationsAmong(keys: seq<string>, before: map<string, string>, after: map<string, string>)
    returns (diffs: seq<AnnotationDiff>)
    ensures diffs == Encoded(DeltasAmong(keys, before, after), EncodeAnnotation)
  {
    diffs := [];
    var i := 0;
    while i < |keys|
      invariant i <= |keys| && diffs == Encoded(DeltasAmong(keys[..i], before, after), EncodeAnnotation)
    {
      var k := keys[i];
      var v1 := if k in before then before[k] else "";
      var v2 := if k in after then after[k] else "";
      NextEncoded(keys, i, before, after, EncodeAnnotation);
      i := i + 1;
      if v1 == v2 && (k in before) == (k in after) {
        continue;
      }
      diffs := diffs + [AnnotationDiff(k, v1, v2, k in before, k in after)];
    }
    assert keys[..i] == keys;
  }

  /** diffAnnotations. */
  method DiffAnnotations(before: map<string, string>, after: map<string, string>) returns (diffs: seq<AnnotationDiff>)
    ensures diffs == Encoded(Deltas(before, after), EncodeAnnotation)
  {
    var keys := UnionKeys(before, after);
    diffs := AnnotationsAmong(keys, before, after);
  }

  lemma {:induction false} EncodedAt<A, B>(ds: seq<A>, encode: A -> B)
    ensures |Encoded(ds, encode)| == |ds|
    ensures forall i :: 0 <= i < |ds| ==> Encoded(ds, encode)[i] == encode(ds[i])
  {
    if ds != [] { EncodedAt(ds[1..], encode); }
  }

  /** An entry is in the report when some difference is written that way. */
  lemma EncodedMember<A, B>(ds: seq<A>, encode: A -> B, e: B)
    ensures e in Encoded(ds, encode) <==> exists d :: d in ds && encode(d) == e
  {
    EncodedAt(ds, encode);
    if d :| d in ds && encode(d) == e {
      var i :| 0 <= i < |ds| && ds[i] == d;
      assert Encoded(ds, encode)[i] == e;
    }
    if e in Encoded(ds, encode) {
      var i :| 0 <= i < |ds| && Encoded(ds, encode)[i] == e;
      assert ds[i] in ds;
    }
  }

  /** The one difference at a key, written out, is in the report exactly when the key differs. */
  lemma EncodedDeltas<V, B>(before: map<string, V>, after: map<string, V>, encode: Delta<V> -> B, e: B, k: string)
    requires forall d: Delta<V> :: encode(d) == e ==> d.key == k
    ensures e in Encoded(Deltas(before, after), encode) <==>
            Look(before, k) != Look(after, k) && encode(Delta(k, Look(before, k), Look(after, k))) == e
  {
    EncodedMember(Deltas(before, after), encode, e);
    DeltasExactly(before, after, Delta(k, Look(before, k), Look(after, k)));
    if d :| d in Deltas(before, after) && encode(d) == e { DeltasExactly(before, after, d); }
  }

  /** What the annotation report says: exactly the keys whose value or presence differs, with the
      value of each side, an absent one as the empty string beside a flag. */
  lemma AnnotationsExactly(before: map<string, string>, after: map<string, string>, e: AnnotationDiff)
    ensures e in Encoded(Deltas(before, after), EncodeAnnotation) <==>
            && (e.beforeSet <==> e.key in before) && (e.afterSet <==> e.key in after)
            && (e.beforeSet || e.afterSet)
            && (e.beforeSet && e.afterSet ==> before[e.key] != after[e.key])
            && e.before == (if e.key in before then before[e.key] else "")
            && e.after == (if e.key in after then after[e.key] else "")
  {
    EncodedDeltas(before, after, EncodeAnnotation, e, e.key);
  }

  lemma {:induction false} DecodeEncoded(ds: seq<Delta<string>>)
    ensures Encoded(Encoded(ds, EncodeAnnotation), DecodeAnnotation) == ds
  {
    if ds != [] { DecodeEncoded(ds[1..]); }
  }

  /** The annotation differences, read back from the report, are a patch. */
  lemma AnnotationsPatch(before: map<string, string>, after: map<string, string>)
    ensures Patch(before, Encoded(Encoded(Deltas(before, after), EncodeAnnotation), DecodeAnnotation)) == after
  {
    DecodeEncoded(Deltas(before, after));
    PatchYieldsAfter(before, after);
  }

  /** A resolved locale; files is None for Go's nil slice, which deep equality tells apart from
      an empty one. */
  datatype Locale = Locale(isDefault: bool, entrypoint: string, files: Option<seq<string>>)

  datatype Component = Component(entrypoint: string, locales: map<string, Locale>)

  datatype LocaleDiff = LocaleDiff(
    component: string, locale: string,
    entrypointBefore: string, entrypointAfter: string, before: seq<string>, after: seq<string>,
    beforeSet: bool, afterSet: bool, defaultBefore: bool, defaultAfter: bool)

  const NO_LOCALE := Locale(false, "", None)

  function LocaleOf(v: Option<Locale>): Locale {
    if v.Some? then v.value else NO_LOCALE
  }

  function FilesOf(l: Locale): seq<string> {
    if l.files.Some? then l.files.value else []
  }

  function EncodeLocale(component: string): Delta<Locale> -> LocaleDiff {
    (d: Delta<Locale>) =>
      var (b, a) := (LocaleOf(d.before), LocaleOf(d.after));
      LocaleDiff(component, d.key, b.entrypoint, a.entrypoint, FilesOf(b), FilesOf(a),
                 d.before.Some?, d.after.Some?, b.isDefault, a.isDefault)
  }

  function LocalesOf(components: map<string, Component>, c: string): map<string, Locale> {
    if c in components then components[c].locales else map[]
  }

  /** The locale differences of one component. */
  ghost function ComponentLocaleDiffs(before: map<string, Component>, after: map<string, Component>, c: string)
    : seq<LocaleDiff>
  {
    Encoded(Deltas(LocalesOf(before, c), LocalesOf(after, c)), EncodeLocale(c))
  }

  ghost function LocaleDiffsAmong(components: seq<string>, before: map<string, Component>,
                                  after: map<string, Component>): seq<LocaleDiff>
    decreases |components|
  {
    if components == [] then []
    else
      var n := |components| - 1;
      LocaleDiffsAmong(components[..n], before, after) + ComponentLocaleDiffs(before, after, components[n])
  }

  method LocalesAmong(component: string, keys: seq<string>, before: map<string, Locale>, after: map<string, Locale>)
    returns (diffs: seq<LocaleDiff>)
    requires forall k :: k in keys ==> k in before || k in after
    ensures diffs == Encoded(DeltasAmong(keys, before, after), EncodeLocale(component))
  {
    diffs := [];
    var i := 0;
    while i < |keys|
      invariant i <= |keys| && diffs == Encoded(DeltasAmong(keys[..i], before, after), EncodeLocale(component))
    {
      var k := keys[i];
      NextEncoded(keys, i, before, after, EncodeLocale(component));
      i := i + 1;
      if k in before && k in after && before[k] == after[k] {
        continue;
      }
      var b := if k in before then before[k] else NO_LOCALE;
      var a := if k in after then after[k] else NO_LOCALE;
      assert k in keys;
      diffs := diffs + [LocaleDiff(component, k, b.entrypoint, a.entrypoint, FilesOf(b), FilesOf(a),
                                   k in before, k in after, b.isDefault, a.isDefault)];
    }
    assert keys[..i] == keys;
  }

  ghost function LocaleDiffs(before: map<string, Component>, after: map<string, Component>): seq<LocaleDiff> {
    LocaleDiffsAmong(Listing(before.Keys + after.Keys), before, after)
  }

  method OneComponent(component: string, before: map<string, Locale>, after: map<string, Locale>)
    returns (diffs: seq<LocaleDiff>)
    ensures diffs == Encoded(Deltas(before, after), EncodeLocale(component))
  {
    var keys := UnionKeys(before, after);
    ListingMembers(before.Keys + after.Keys);
    diffs := LocalesAmong(component, keys, before, after);
  }

  method ComponentsLocales(components: seq<string>, before: map<string, Component>, after: map<string, Component>)
    returns (diffs: seq<LocaleDiff>)
    ensures diffs == LocaleDiffsAmong(components, before, after)
  {
    diffs := [];
    var i := 0;
    while i < |components|
      invariant i <= |components| && diffs == LocaleDiffsAmong(components[..i], before, after)
    {
      var more := OneComponent(components[i], LocalesOf(before, components[i]), LocalesOf(after, components[i]));
      assert components[..i + 1][..i] == components[..i];
      diffs := diffs + more;
      i := i + 1;
    }
    assert components[..i] == components;
  }

  /** diffLocales. */
  method DiffLocales(before: map<string, Component>, after: map<string, Component>) returns (diffs: seq<LocaleDiff>)
    ensures diffs == LocaleDiffs(before, after)
  {
    var components := UnionKeys(before, after);
    diffs := ComponentsLocales(components, before, after);
  }

  /** A locale as the report shows it: an empty file list and a missing one look the same. */
  function Plain(l: Locale): Locale {
    if l.files == Some([]) then l.(files := None) else l
  }

  function PlainMap(m: map<string, Locale>): map<string, Locale> {
    map k | k in m :: Plain(m[k])
  }

  function ReadLocale(isSet: bool, isDefault: bool, entrypoint: string, files: seq<string>): Option<Locale> {
    if isSet then Some(Locale(isDefault, entrypoint, if files == [] then None else Some(files))) else None
  }

  /** A locale entry of the report, read back. */
  function DecodeLocale(d: LocaleDiff): Delta<Locale> {
    Delta(d.locale, ReadLocale(d.beforeSet, d.defaultBefore, d.entrypointBefore, d.before),
          ReadLocale(d.afterSet, d.defaultAfter, d.entrypointAfter, d.after))
  }

  function PlainOption(v: Option<Locale>): Option<Locale> {
    if v.Some? then Some(Plain(v.value)) else None
  }

  function PlainDelta(d: Delta<Locale>): Delta<Locale> {
    Delta(d.key, PlainOption(d.before), PlainOption(d.after))
  }

  lemma {:induction false} DecodeLocales(c: string, ds: seq<Delta<Locale>>)
    ensures Encoded(Encoded(ds, EncodeLocale(c)), DecodeLocale) == Encoded(ds, PlainDelta)
  {
    if ds != [] { DecodeLocales(c, ds[1..]); }
  }

  /** Every empty file list of the second side was already there, in an equal locale. */
  ghost predicate EmptyListsKept(before: map<string, Locale>, after: map<string, Locale>) {
    forall k :: k in after && after[k].files == Some([]) ==> Look(before, k) == Some(after[k])
  }

  /** The entry of a key, if it has one. */
  lemma EntryAt(before: map<string, Locale>, after: map<string, Locale>, plain: seq<Delta<Locale>>, k: string)
    requires plain == Encoded(Deltas(before, after), PlainDelta)
    ensures Look(before, k) != Look(after, k) ==> PlainDelta(Delta(k, Look(before, k), Look(after, k))) in plain
    ensures Look(before, k) == Look(after, k) ==> forall d :: d in plain ==> d.key != k
  {
    var ds := Deltas(before, after);
    EncodedAt(ds, PlainDelta);
    var full := Delta(k, Look(before, k), Look(after, k));
    DeltasExactly(before, after, full);
    if full in ds {
      var i :| 0 <= i < |ds| && ds[i] == full;
      assert plain[i] in plain;
    } else {
      forall d | d in plain ensures d.key != k {
        var i :| 0 <= i < |plain| && plain[i] == d;
        assert ds[i] in ds;
        DeltasExactly(before, after, ds[i]);
      }
    }
  }

  lemma PlainAscends(before: map<string, Locale>, after: map<string, Locale>)
    ensures KeysAscend(Encoded(Deltas(before, after), PlainDelta))
  {
    EncodedAt(Deltas(before, after), PlainDelta);
    DeltasAscend(before, after);
  }

  /** What the entries, read back as a patch, leave at one key. */
  lemma PatchedAt(before: map<string, Locale>, after: map<string, Locale>, plain: seq<Delta<Locale>>, k: string)
    requires plain == Encoded(Deltas(before, after), PlainDelta)
    ensures Look(Patch(before, plain), k) ==
            if Look(before, k) == Look(after, k) then Look(after, k) else PlainOption(Look(after, k))
  {
    PlainAscends(before, after);
    PatchAt(before, plain, k);
    EntryAt(before, after, plain, k);
  }

  /** The entries of one component, read back, are a patch exactly when no empty file list has
      to be told from a missing one. */
  lemma ComponentPatchExactly(before: map<string, Locale>, after: map<string, Locale>, c: string)
    ensures Patch(before, Encoded(Encoded(Deltas(before, after), EncodeLocale(c)), DecodeLocale)) == after <==>
            EmptyListsKept(before, after)
  {
    var plain := Encoded(Deltas(before, after), PlainDelta);
    DecodeLocales(c, Deltas(before, after));
    forall k ensures Look(Patch(before, plain), k) ==
                     if Look(before, k) == Look(after, k) then Look(after, k) else PlainOption(Look(after, k))
    {
      PatchedAt(before, after, plain, k);
    }
    if EmptyListsKept(before, after) {
      SameLooks(Patch(before, plain), after);
    } else {
      var k :| k in after && after[k].files == Some([]) && Look(before, k) != Some(after[k]);
      assert Look(Patch(before, plain), k) == Some(Plain(after[k]));
    }
  }

  /** The entries of one component, read back, turn its locales into those of the second
      artifact, up to the difference between an empty and a missing file list. */
  lemma ComponentLocalesPatch(before: map<string, Locale>, after: map<string, Locale>, c: string)
    ensures Patch(PlainMap(before), Encoded(Encoded(Deltas(before, after), EncodeLocale(c)), DecodeLocale))
            == PlainMap(after)
  {
    var plain := Encoded(Deltas(before, after), PlainDelta);
    DecodeLocales(c, Deltas(before, after));
    PlainAscends(before, after);
    forall k ensures Look(Patch(PlainMap(before), plain), k) == Look(PlainMap(after), k) {
      PatchAt(PlainMap(before), plain, k);
      EntryAt(before, after, plain, k);
    }
    SameLooks(Patch(PlainMap(before), plain), PlainMap(after));
  }

  /** The entries of one component in the whole report. */
  function OfComponent(diffs: seq<LocaleDiff>, c: string): seq<LocaleDiff> {
    if diffs == [] then []
    else if diffs[0].component == c then [diffs[0]] + OfComponent(diffs[1..], c)
    else OfComponent(diffs[1..], c)
  }

  lemma {:induction false} OfConcat(a: seq<LocaleDiff>, b: seq<LocaleDiff>, c: string)
    ensures OfComponent(a + b, c) == OfComponent(a, c) + OfComponent(b, c)
  {
    if a == [] {
      assert a + b == b;
    } else {
      assert (a + b)[1..] == a[1..] + b;
      OfConcat(a[1..], b, c);
    }
  }

  lemma {:induction false} OfOwn(ds: seq<Delta<Locale>>, owner: string, c: string)
    ensures var diffs := Encoded(ds, EncodeLocale(owner)); OfComponent(diffs, c) == if owner == c then diffs else []
  {
    if ds != [] {
      OfOwn(ds[1..], owner, c);
      var diffs := Encoded(ds, EncodeLocale(owner));
      assert diffs[1..] == Encoded(ds[1..], EncodeLocale(owner));
    }
  }

  lemma LastFresh(components: seq<string>)
    requires components != [] && Distinct(components)
    ensures var init, last := components[..|components| - 1], components[|components| - 1];
            Distinct(init) && last !in init && forall c :: c in components <==> c in init || c == last
  {
    var init, last := components[..|components| - 1], components[|components| - 1];
    assert components == init + [last];
    forall i | 0 <= i < |init| ensures init[i] != last {
      assert components[i] != components[|components| - 1];
    }
  }

  lemma OfOne(before: map<string, Component>, after: map<string, Component>, owner: string, c: string)
    ensures OfComponent(ComponentLocaleDiffs(before, after, owner), c) ==
            if owner == c then ComponentLocaleDiffs(before, after, c) else []
  {
    OfOwn(Deltas(LocalesOf(before, owner), LocalesOf(after, owner)), owner, c);
  }

  lemma {:induction false} OfAmong(components: seq<string>, before: map<string, Component>,
                                   after: map<string, Component>, c: string)
    requires Distinct(components)
    ensures OfComponent(LocaleDiffsAmong(components, before, after), c) ==
            if c in components then ComponentLocaleDiffs(before, after, c) else []
    decreases |components|
  {
    if components != [] {
      var init, last := components[..|components| - 1], components[|components| - 1];
      LastFresh(components);
      OfAmong(init, before, after, c);
      OfConcat(LocaleDiffsAmong(init, before, after), ComponentLocaleDiffs(before, after, last), c);
      OfOne(before, after, last, c);
    }
  }

  lemma NoneOutside(before: map<string, Component>, after: map<string, Component>, c: string)
    requires c !in before && c !in after
    ensures ComponentLocaleDiffs(before, after, c) == []
  {
    var none: map<string, Locale> := map[];
    NoDeltas(none, none);
  }

  /** The locale report is a patch for a component exactly when that component's empty file
      lists were there before; up to the difference between an empty and a missing list it
      always is one. It has no entry for any other component. */
  lemma LocalesPatch(before: map<string, Component>, after: map<string, Component>, c: string)
    ensures OfComponent(LocaleDiffs(before, after), c) == ComponentLocaleDiffs(before, after, c)
    ensures EmptyListsKept(LocalesOf(before, c), LocalesOf(after, c)) <==>
            Patch(LocalesOf(before, c), Encoded(OfComponent(LocaleDiffs(before, after), c), DecodeLocale))
            == LocalesOf(after, c)
    ensures Patch(PlainMap(LocalesOf(before, c)), Encoded(OfComponent(LocaleDiffs(before, after), c), DecodeLocale))
            == PlainMap(LocalesOf(after, c))
  {
    var components := Listing(before.Keys + after.Keys);
    ListingLists(before.Keys + after.Keys);
    ListingMembers(before.Keys + after.Keys);
    StrictIsDistinct(components);
    OfAmong(components, before, after, c);
    if c !in components { NoneOutside(before, after, c); }
    ComponentPatchExactly(LocalesOf(before, c), LocalesOf(after, c), c);
    ComponentLocalesPatch(LocalesOf(before, c), LocalesOf(after, c), c);
  }

  lemma NoDeltasEncoded(before: map<string, Locale>, after: map<string, Locale>, c: string)
    ensures Encoded(Deltas(before, after), EncodeLocale(c)) == [] <==> before == after
  {
    NoDeltas(before, after);
  }

  /** A locale as one side of an entry shows it. */
  predicate ShowsSide(l: Locale, entrypoint: string, files: seq<string>, isDefault: bool) {
    && entrypoint == l.entrypoint && isDefault == l.isDefault
    && (if l.files.None? then files == [] else files == l.files.value)
  }

  /** e tells two sets of locales apart: its locale differs in presence or content, and it shows
      entrypoint, files and default flag of each side, an absent side empty beside its flag. */
  predicate TellsApart(before: map<string, Locale>, after: map<string, Locale>, e: LocaleDiff) {
    && (e.beforeSet <==> e.locale in before) && (e.afterSet <==> e.locale in after)
    && (e.beforeSet || e.afterSet)
    && (e.beforeSet && e.afterSet ==> before[e.locale] != after[e.locale])
    && (if e.locale in before then ShowsSide(before[e.locale], e.entrypointBefore, e.before, e.defaultBefore)
        else e.entrypointBefore == "" && e.before == [] && !e.defaultBefore)
    && (if e.locale in after then ShowsSide(after[e.locale], e.entrypointAfter, e.after, e.defaultAfter)
        else e.entrypointAfter == "" && e.after == [] && !e.defaultAfter)
  }

  lemma ComponentLocalesExactly(before: map<string, Locale>, after: map<string, Locale>, c: string, e: LocaleDiff)
    ensures e in Encoded(Deltas(before, after), EncodeLocale(c)) <==> e.component == c && TellsApart(before, after, e)
  {
    EncodedDeltas(before, after, EncodeLocale(c), e, e.locale);
  }

  lemma {:induction false} OnlyOwn(diffs: seq<LocaleDiff>, c: string, e: LocaleDiff)
    ensures e in OfComponent(diffs, c) <==> e in diffs && e.component == c
  {
    if diffs != [] { OnlyOwn(diffs[1..], c, e); }
  }

  /** What the locale report says: of every component, exactly the locales that differ. */
  lemma LocalesExactly(before: map<string, Component>, after: map<string, Component>, e: LocaleDiff)
    ensures e in LocaleDiffs(before, after) <==>
            TellsApart(if e.component in before then before[e.component].locales else map[],
                       if e.component in after then after[e.component].locales else map[], e)
  {
    var c := e.component;
    LocalesPatch(before, after, c);
    OnlyOwn(LocaleDiffs(before, after), c, e);
    ComponentLocalesExactly(LocalesOf(before, c), LocalesOf(after, c), c, e);
  }

  /** No locale entry exactly when every component has the same locales on both sides. */
  lemma NoLocaleDiffs(before: map<string, Component>, after: map<string, Component>)
    ensures LocaleDiffs(before, after) == [] <==> forall c :: LocalesOf(before, c) == LocalesOf(after, c)
  {
    var diffs := LocaleDiffs(before, after);
    if diffs == [] {
      forall c ensures LocalesOf(before, c) == LocalesOf(after, c) {
        LocalesPatch(before, after, c);
        NoDeltasEncoded(LocalesOf(before, c), LocalesOf(after, c), c);
      }
    } else {
      var c := diffs[0].component;
      LocalesPatch(before, after, c);
      assert OfComponent(diffs, c) != [];
      NoDeltasEncoded(LocalesOf(before, c), LocalesOf(after, c), c);
    }
  }

  /** A missing and an empty file list differ, although the entry shows the same on both sides. */
  lemma EmptyListDiffers(k: string, c: string)
    ensures var before: map<string, Locale> := map[k := Locale(false, "", None)];
            var after: map<string, Locale> := map[k := Locale(false, "", Some([]))];
            Encoded(Deltas(before, after), EncodeLocale(c)) ==
            [LocaleDiff(c, k, "", "", [], [], true, true, false, false)]
  {
    var before: map<string, Locale> := map[k := Locale(false, "", None)];
    var after: map<string, Locale> := map[k := Locale(false, "", Some([]))];
    ListsUnique([k], Listing(before.Keys + after.Keys), {k}) by {
      ListingLists(before.Keys + after.Keys);
      assert before.Keys + after.Keys == {k};
    }
    assert DeltasAmong([k], before, after) == [Delta(k, Look(before, k), Look(after, k))];
  }

  function MirrorAnnotation(d: AnnotationDiff): AnnotationDiff {
    AnnotationDiff(d.key, d.after, d.before, d.afterSet, d.beforeSet)
  }

  function MirrorLocale(d: LocaleDiff): LocaleDiff {
    LocaleDiff(d.component, d.locale, d.entrypointAfter, d.entrypointBefore, d.after, d.before,
               d.afterSet, d.beforeSet, d.defaultAfter, d.defaultBefore)
  }

  lemma {:induction false} AnnotationsMirrored(ds: seq<Delta<string>>)
    ensures Encoded(Swapped(ds), EncodeAnnotation) == Encoded(Encoded(ds, EncodeAnnotation), MirrorAnnotation)
  {
    if ds != [] { AnnotationsMirrored(ds[1..]); }
  }

  lemma AnnotationsMirror(before: map<string, string>, after: map<string, string>)
    ensures Encoded(Deltas(after, before), EncodeAnnotation)
            == Encoded(Encoded(Deltas(before, after), EncodeAnnotation), MirrorAnnotation)
  {
    DeltasMirror(before, after);
    AnnotationsMirrored(Deltas(before, after));
  }

  lemma {:induction false} LocalesMirrored(ds: seq<Delta<Locale>>, c: string)
    ensures Encoded(Swapped(ds), EncodeLocale(c)) == Encoded(Encoded(ds, EncodeLocale(c)), MirrorLocale)
  {
    if ds != [] { LocalesMirrored(ds[1..], c); }
  }

  lemma {:induction false} AmongLocalesMirrored(components: seq<string>, before: map<string, Component>,
                                                after: map<string, Component>)
    ensures LocaleDiffsAmong(components, after, before)
            == Encoded(LocaleDiffsAmong(components, before, after), MirrorLocale)
    decreases |components|
  {
    if components != [] {
      var n := |components| - 1;
      var c := components[n];
      AmongLocalesMirrored(components[..n], before, after);
      DeltasMirror(LocalesOf(before, c), LocalesOf(after, c));
      LocalesMirrored(Deltas(LocalesOf(before, c), LocalesOf(after, c)), c);
      EncodedConcat(LocaleDiffsAmong(components[..n], before, after), ComponentLocaleDiffs(before, after, c),
                    MirrorLocale);
    }
  }

  lemma LocalesMirror(before: map<string, Component>, after: map<string, Component>)
    ensures LocaleDiffs(after, before) == Encoded(LocaleDiffs(before, after), MirrorLocale)
  {
    assert before.Keys + after.Keys == after.Keys + before.Keys;
    AmongLocalesMirrored(Listing(before.Keys + after.Keys), before, after);
  }
}
