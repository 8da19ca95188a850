/** The component and file parts of the comparison, and the whole report (artifact/diff.go). */
module DiffReport {
  import opened Prelude
  import opened Diff

  /** What a scan records of one file. */
  datatype FileInfo = FileInfo(size: int, digest: string)

  datatype FileChange = FileAdded | FileRemoved | FileModified

  datatype FileDiff = FileDiff(path: string, change: FileChange, sizeBefore: int, sizeAfter: int)

  function SizeOf(v: Option<FileInfo>): int {
    if v.Some? then v.value.size else 0
  }

  function EncodeFile(d: Delta<FileInfo>): FileDiff {
    FileDiff(d.key,
             if d.after.None? then FileRemoved else if d.before.None? then FileAdded else FileModified,
             SizeOf(d.before), SizeOf(d.after))
  }

  type Files = map<string, FileInfo>

  ghost function FileDiffs(a: Files, b: Files): seq<FileDiff> {
    Encoded(Deltas(a, b), EncodeFile)
  }

  /** The loop of diffComponentFiles over the paths of both sides. */
  method FilesAmong(paths: seq<string>, a: Files, b: Files) returns (diffs: seq<FileDiff>)
    requires forall p :: p in paths ==> p in a || p in b
    ensures diffs == Encoded(DeltasAmong(paths, a, b), EncodeFile)
  {
    diffs := [];
    var i := 0;
    while i < |paths|
      invariant i <= |paths| && diffs == Encoded(DeltasAmong(paths[..i], a, b), EncodeFile)
    {
      var p := paths[i];
      assert p in paths;
      NextEncoded(paths, i, a, b, EncodeFile);
      if p in a && p !in b {
        diffs := diffs + [FileDiff(p, FileRemoved, a[p].size, 0)];
      } else if p !in a && p in b {
        diffs := diffs + [FileDiff(p, FileAdded, 0, b[p].size)];
      } else if a[p].size != b[p].size || a[p].digest != b[p].digest {
        diffs := diffs + [FileDiff(p, FileModified, a[p].size, b[p].size)];
      }
      i := i + 1;
    }
    assert paths[..i] == paths;
  }

  method DiffFiles(a: Files, b: Files) returns (diffs: seq<FileDiff>)
    ensures diffs == FileDiffs(a, b)
  {
    var paths := UnionKeys(a, b);
    ListingMembers(a.Keys + b.Keys);
    diffs := FilesAmong(paths, a, b);
  }

  /** The file report: removed are exactly the paths of the first side alone, added those of the
      second side alone, modified those of both with another size or digest; each with the sizes
      of the sides that have it and zero for the other; once each in ascending order. */
  lemma FileDiffsExactly(a: Files, b: Files, f: FileDiff)
    ensures f in FileDiffs(a, b) <==>
            match f.change
            case FileRemoved => && f.path in a && f.path !in b
                                && f.sizeBefore == a[f.path].size && f.sizeAfter == 0
            case FileAdded => && f.path !in a && f.path in b
                              && f.sizeBefore == 0 && f.sizeAfter == b[f.path].size
            case FileModified => && f.path in a && f.path in b
                                 && (a[f.path].size != b[f.path].size || a[f.path].digest != b[f.path].digest)
                                 && f.sizeBefore == a[f.path].size && f.sizeAfter == b[f.path].size
    ensures forall i, j :: 0 <= i < j < |FileDiffs(a, b)| ==> Lt(FileDiffs(a, b)[i].path, FileDiffs(a, b)[j].path)
  {
    EncodedAt(Deltas(a, b), EncodeFile);
    DeltasAscend(a, b);
    EncodedDeltas(a, b, EncodeFile, f, f.path);
  }

  datatype Presence = Present | Added | Removed

  datatype ComponentDiff = ComponentDiff(
    component: string, digestBefore: string, digestAfter: string,
    entrypointBefore: string, entrypointAfter: string, files: Option<seq<FileDiff>>,
    presence: Presence, digestChanged: bool, entrypointChanged: bool)

  datatype Subject = Subject(mediaType: string, digest: string, size: int)

  /** One artifact as the comparison reads it: files holds the scan of a component, None when it
      cannot be scanned. */
  datatype Artifact = Artifact(
    annotations: map<string, string>, schemaVersion: string, subject: Option<Subject>,
    components: map<string, Component>, digests: map<string, string>, files: string -> Option<Files>)

  function EntrypointOf(components: map<string, Component>, c: string): string {
    if c in components then components[c].entrypoint else ""
  }

  /** The files of a component on one side; none when it is absent there. */
  function Fingerprints(x: Artifact, c: string): Option<Files> {
    if c in x.digests then x.files(c) else Some(map[])
  }

  function ContentChanged(a: Artifact, b: Artifact, c: string): bool {
    Look(a.digests, c) != Look(b.digests, c)
  }

  function Reported(a: Artifact, b: Artifact, c: string): bool {
    ContentChanged(a, b, c) || EntrypointOf(a.components, c) != EntrypointOf(b.components, c)
  }

  /** The entry of a reported component, with its file differences already made. */
  function EntryOf(a: Artifact, b: Artifact, c: string, files: Option<seq<FileDiff>>): ComponentDiff {
    var (epA, epB) := (EntrypointOf(a.components, c), EntrypointOf(b.components, c));
    ComponentDiff(c, ValueOf(Look(a.digests, c)), ValueOf(Look(b.digests, c)),
                  if epA == epB then "" else epA, if epA == epB then "" else epB, files,
                  if c !in b.digests then Removed else if c !in a.digests then Added else Present,
                  c in a.digests && c in b.digests && a.digests[c] != b.digests[c], epA != epB)
  }

  /** Opening the blobs of c is necessary and fails. */
  predicate Unreadable(a: Artifact, b: Artifact, metadataOnly: bool, c: string) {
    !metadataOnly && ContentChanged(a, b, c) && (Fingerprints(a, c).None? || Fingerprints(b, c).None?)
  }

  ghost function FilesFor(a: Artifact, b: Artifact, metadataOnly: bool, c: string): Option<seq<FileDiff>> {
    if metadataOnly || !ContentChanged(a, b, c) || Unreadable(a, b, metadataOnly, c) then None
    else Some(FileDiffs(Fingerprints(a, c).value, Fingerprints(b, c).value))
  }

  ghost function ComponentEntries(a: Artifact, b: Artifact, metadataOnly: bool, components: seq<string>)
    : seq<ComponentDiff>
    decreases |components|
  {
    if components == [] then []
    else
      var n := |components| - 1;
      var before := ComponentEntries(a, b, metadataOnly, components[..n]);
      if Reported(a, b, components[n])
      then before + [EntryOf(a, b, components[n], FilesFor(a, b, metadataOnly, components[n]))]
      else before
  }

  /** The body of the loop of diffComponents for one component: whether its blobs could be
      scanned where necessary, and its entry if it is reported. */
  method CompareOne(a: Artifact, b: Artifact, metadataOnly: bool, c: string)
    returns (readable: bool, entry: Option<ComponentDiff>)
    requires c in a.digests || c in b.digests
    ensures readable <==> !Unreadable(a, b, metadataOnly, c)
    ensures readable ==> entry == if Reported(a, b, c) then Some(EntryOf(a, b, c, FilesFor(a, b, metadataOnly, c)))
                                  else None
  {
    var inA, inB := c in a.digests, c in b.digests;
    var before, after := if inA then a.digests[c] else "", if inB then b.digests[c] else "";
    var presence := if inA && !inB then Removed else if !inA && inB then Added else Present;
    var digestChanged := presence == Present && before != after;
    var epA, epB := EntrypointOf(a.components, c), EntrypointOf(b.components, c);
    var contentChanged := presence != Present || digestChanged;
    if !contentChanged && epA == epB {
      return true, None;
    }
    var files: Option<seq<FileDiff>> := None;
    if !metadataOnly && contentChanged {
      var filesA, filesB := Fingerprints(a, c), Fingerprints(b, c);
      if filesA.None? || filesB.None? {
        return false, None;
      }
      var diffs := DiffFiles(filesA.value, filesB.value);
      files := Some(diffs);
    }
    return true, Some(ComponentDiff(c, before, after, if epA == epB then "" else epA,
                                    if epA == epB then "" else epB, files, presence, digestChanged, epA != epB));
  }

  lemma NextEntry(a: Artifact, b: Artifact, metadataOnly: bool, components: seq<string>, i: nat)
    requires i < |components|
    ensures ComponentEntries(a, b, metadataOnly, components[..i + 1]) ==
            ComponentEntries(a, b, metadataOnly, components[..i]) +
            if Reported(a, b, components[i])
            then [EntryOf(a, b, components[i], FilesFor(a, b, metadataOnly, components[i]))] else []
  {
    assert components[..i + 1][..i] == components[..i];
  }

  /** The loop of diffComponents. None stands for a component that cannot be scanned. */
  method EntriesAmong(a: Artifact, b: Artifact, metadataOnly: bool, components: seq<string>)
    returns (r: Option<seq<ComponentDiff>>)
    requires forall c :: c in components ==> c in a.digests || c in b.digests
    ensures r == if exists c :: c in components && Unreadable(a, b, metadataOnly, c) then None
                 else Some(ComponentEntries(a, b, metadataOnly, components))
  {
    var results: seq<ComponentDiff> := [];
    var i := 0;
    while i < |components|
      invariant i <= |components| && results == ComponentEntries(a, b, metadataOnly, components[..i])
      invariant forall k :: 0 <= k < i ==> !Unreadable(a, b, metadataOnly, components[k])
    {
      var c := components[i];
      assert c in components;
      NextEntry(a, b, metadataOnly, components, i);
      var readable, entry := CompareOne(a, b, metadataOnly, c);
      if !readable {
        return None;
      }
      if entry.Some? {
        results := results + [entry.value];
      }
      i := i + 1;
    }
    assert components[..i] == components;
    return Some(results);
  }

  datatype DiffResult = DiffResult(
    schemaVersionBefore: string, schemaVersionAfter: string,
    subjectBefore: Option<Subject>, subjectAfter: Option<Subject>,
    annotations: seq<AnnotationDiff>, components: seq<ComponentDiff>, locales: seq<LocaleDiff>, equal: bool)

  datatype DiffError = NotFound | ScanFailed

  /** filterComponents. */
  function Restricted(digests: map<string, string>, only: string): map<string, string> {
    if only == "" then digests else map c | c in digests && c == only :: digests[c]
  }

  function RestrictedTo(x: Artifact, only: string): Artifact {
    x.(digests := Restricted(x.digests, only))
  }

  /** The compared parts of two artifacts, with the selector applied to component descriptors. */
  ghost function Components(a: Artifact, b: Artifact, metadataOnly: bool): seq<ComponentDiff> {
    ComponentEntries(a, b, metadataOnly, Listing(a.digests.Keys + b.digests.Keys))
  }

  ghost predicate AnyUnreadable(a: Artifact, b: Artifact, metadataOnly: bool) {
    exists c :: Unreadable(a, b, metadataOnly, c)
  }

  ghost function ResultOf(a: Artifact, b: Artifact, metadataOnly: bool): DiffResult {
    var annotations := Encoded(Deltas(a.annotations, b.annotations), EncodeAnnotation);
    var locales := LocaleDiffs(a.components, b.components);
    var components := Components(a, b, metadataOnly);
    var sameVersion, sameSubject := a.schemaVersion == b.schemaVersion, a.subject == b.subject;
    DiffResult(if sameVersion then "" else a.schemaVersion, if sameVersion then "" else b.schemaVersion,
               if sameSubject then None else a.subject, if sameSubject then None else b.subject,
               annotations, components, locales,
               annotations == [] && (sameVersion || a.schemaVersion == "") && sameSubject
               && components == [] && locales == [])
  }

  lemma OnlyListed(a: Artifact, b: Artifact, metadataOnly: bool)
    ensures var keys := Listing(a.digests.Keys + b.digests.Keys);
            (exists c :: c in keys && Unreadable(a, b, metadataOnly, c)) <==> AnyUnreadable(a, b, metadataOnly)
  {
    var keys := Listing(a.digests.Keys + b.digests.Keys);
    ListingMembers(a.digests.Keys + b.digests.Keys);
    forall c | Unreadable(a, b, metadataOnly, c) ensures c in keys {
      assert Look(a.digests, c) != Look(b.digests, c);
    }
  }

  /** Diff. */
  method Compare(x: Artifact, y: Artifact, only: string, metadataOnly: bool) returns (r: Result<DiffResult, DiffError>)
    ensures var a, b := RestrictedTo(x, only), RestrictedTo(y, only);
            r == if only != "" && only !in x.digests && only !in y.digests then Err(NotFound)
                 else if AnyUnreadable(a, b, metadataOnly) then Err(ScanFailed)
                 else Ok(ResultOf(a, b, metadataOnly))
  {
    var a, b := RestrictedTo(x, only), RestrictedTo(y, only);
    if only != "" && |a.digests| == 0 && |b.digests| == 0 {
      assert only !in a.digests && only !in b.digests;
      return Err(NotFound);
    }
    var annotations := DiffAnnotations(x.annotations, y.annotations);
    var subjectBefore: Option<Subject>, subjectAfter: Option<Subject> := None, None;
    if x.subject != y.subject {
      subjectBefore, subjectAfter := x.subject, y.subject;
    }
    var versionBefore, versionAfter := "", "";
    if x.schemaVersion != y.schemaVersion {
      versionBefore, versionAfter := x.schemaVersion, y.schemaVersion;
    }
    var locales := DiffLocales(x.components, y.components);
    var keys := UnionKeys(a.digests, b.digests);
    ListingMembers(a.digests.Keys + b.digests.Keys);
    var components := EntriesAmong(a, b, metadataOnly, keys);
    OnlyListed(a, b, metadataOnly);
    if components.None? {
      return Err(ScanFailed);
    }
    var equal := annotations == [] && versionBefore == "" && x.subject == y.subject
                 && components.value == [] && locales == [];
    return Ok(DiffResult(versionBefore, versionAfter, subjectBefore, subjectAfter, annotations,
                         components.value, locales, equal));
  }

  lemma {:induction false} EntriesExactly(a: Artifact, b: Artifact, metadataOnly: bool, components: seq<string>,
                                          d: ComponentDiff)
    ensures d in ComponentEntries(a, b, metadataOnly, components) <==>
            && d.component in components && Reported(a, b, d.component)
            && d == EntryOf(a, b, d.component, FilesFor(a, b, metadataOnly, d.component))
    decreases |components|
  {
    if components != [] {
      var n := |components| - 1;
      EntriesExactly(a, b, metadataOnly, components[..n], d);
      assert components == components[..n] + [components[n]];
      assert d.component in components <==> d.component in components[..n] || d.component == components[n];
    }
  }

  lemma EntriesMeaning(a: Artifact, b: Artifact, metadataOnly: bool, d: ComponentDiff)
    ensures d in Components(a, b, metadataOnly) <==>
            && (d.component in a.digests || d.component in b.digests) && Reported(a, b, d.component)
            && d == EntryOf(a, b, d.component, FilesFor(a, b, metadataOnly, d.component))
  {
    var keys := Listing(a.digests.Keys + b.digests.Keys);
    ListingMembers(a.digests.Keys + b.digests.Keys);
    EntriesExactly(a, b, metadataOnly, keys, d);
  }

  /** The entrypoint of a component, empty when it has none. */
  predicate HasEntrypoint(components: map<string, Component>, c: string, entrypoint: string) {
    if c in components then entrypoint == components[c].entrypoint else entrypoint == ""
  }

  /** d reports component c: how its presence changed, the digest of each side, whether digest
      and entrypoint differ, and both entrypoints if they do. */
  ghost predicate Describes(a: Artifact, b: Artifact, d: ComponentDiff) {
    var c := d.component;
    && (match d.presence
        case Removed => c in a.digests && c !in b.digests
        case Added => c !in a.digests && c in b.digests
        case Present => c in a.digests && c in b.digests)
    && (if c in a.digests then d.digestBefore == a.digests[c] else d.digestBefore == "")
    && (if c in b.digests then d.digestAfter == b.digests[c] else d.digestAfter == "")
    && (d.digestChanged <==> c in a.digests && c in b.digests && a.digests[c] != b.digests[c])
    && (d.entrypointChanged <==> !exists e :: HasEntrypoint(a.components, c, e) && HasEntrypoint(b.components, c, e))
    && (if d.entrypointChanged
        then HasEntrypoint(a.components, c, d.entrypointBefore) && HasEntrypoint(b.components, c, d.entrypointAfter)
        else d.entrypointBefore == "" && d.entrypointAfter == "")
  }

  /** The file part of an entry: missing when only metadata is compared or the content is the
      same; else the difference between the scans of both sides, an absent side being empty. */
  ghost predicate ShowsFiles(a: Artifact, b: Artifact, metadataOnly: bool, d: ComponentDiff) {
    var c := d.component;
    if metadataOnly || (d.presence == Present && !d.digestChanged) then d.files == None
    else exists fa, fb ::
      && Some(fa) == (if c in a.digests then a.files(c) else Some(map[]))
      && Some(fb) == (if c in b.digests then b.files(c) else Some(map[]))
      && d.files == Some(FileDiffs(fa, fb))
  }

  lemma EntryDescribes(a: Artifact, b: Artifact, c: string, files: Option<seq<FileDiff>>, d: ComponentDiff)
    requires d.component == c && (c in a.digests || c in b.digests)
    ensures d == EntryOf(a, b, c, files) <==> Describes(a, b, d) && d.files == files
    ensures Describes(a, b, d) ==>
              (Reported(a, b, c) <==> d.presence != Present || d.digestChanged || d.entrypointChanged)
    ensures Describes(a, b, d) ==>
              (ContentChanged(a, b, c) <==> d.presence != Present || d.digestChanged)
  {
    var (epA, epB) := (EntrypointOf(a.components, c), EntrypointOf(b.components, c));
    assert HasEntrypoint(a.components, c, epA) && HasEntrypoint(b.components, c, epB);
    assert forall e :: HasEntrypoint(a.components, c, e) ==> e == epA;
    assert forall e :: HasEntrypoint(b.components, c, e) ==> e == epB;
  }

  lemma FilesShown(a: Artifact, b: Artifact, metadataOnly: bool, d: ComponentDiff)
    requires Describes(a, b, d) && !Unreadable(a, b, metadataOnly, d.component)
    requires ContentChanged(a, b, d.component) <==> d.presence != Present || d.digestChanged
    ensures ShowsFiles(a, b, metadataOnly, d) <==> d.files == FilesFor(a, b, metadataOnly, d.component)
  {
    var c := d.component;
    if !metadataOnly && ContentChanged(a, b, c) {
      var fa, fb := Fingerprints(a, c).value, Fingerprints(b, c).value;
      assert Some(fa) == (if c in a.digests then a.files(c) else Some(map[]));
      assert Some(fb) == (if c in b.digests then b.files(c) else Some(map[]));
    }
  }

  /** A component is reported exactly when its presence, digest or entrypoint differs, and its
      entry says how. */
  lemma ComponentsExactly(a: Artifact, b: Artifact, metadataOnly: bool, d: ComponentDiff)
    requires !Unreadable(a, b, metadataOnly, d.component)
    ensures d in Components(a, b, metadataOnly) <==>
            && Describes(a, b, d) && ShowsFiles(a, b, metadataOnly, d)
            && (d.presence != Present || d.digestChanged || d.entrypointChanged)
  {
    var c := d.component;
    EntriesMeaning(a, b, metadataOnly, d);
    if c in a.digests || c in b.digests {
      EntryDescribes(a, b, c, FilesFor(a, b, metadataOnly, c), d);
      if Describes(a, b, d) { FilesShown(a, b, metadataOnly, d); }
    }
  }

  /** The comparison fails exactly when file contents are compared and a component that differs
      in presence or digest cannot be scanned on a side that has it. */
  lemma UnreadableExactly(a: Artifact, b: Artifact, metadataOnly: bool, c: string)
    ensures Unreadable(a, b, metadataOnly, c) <==>
            && !metadataOnly
            && ((c in a.digests) != (c in b.digests)
                || (c in a.digests && c in b.digests && a.digests[c] != b.digests[c]))
            && ((c in a.digests && a.files(c) == None) || (c in b.digests && b.files(c) == None))
  {
  }

  ghost predicate EntriesInOrder(ds: seq<ComponentDiff>) {
    forall i, j :: 0 <= i < j < |ds| ==> Lt(ds[i].component, ds[j].component)
  }

  lemma {:induction false} EntriesAscend(a: Artifact, b: Artifact, metadataOnly: bool, components: seq<string>)
    requires StrictlyAscending(components)
    ensures EntriesInOrder(ComponentEntries(a, b, metadataOnly, components))
    decreases |components|
  {
    if components != [] {
      var n := |components| - 1;
      var before := ComponentEntries(a, b, metadataOnly, components[..n]);
      EntriesAscend(a, b, metadataOnly, components[..n]);
      forall i | 0 <= i < |before| ensures Lt(before[i].component, components[n]) {
        EntriesExactly(a, b, metadataOnly, components[..n], before[i]);
        var k :| 0 <= k < n && components[..n][k] == before[i].component;
        assert Lt(components[k], components[n]);
      }
      if Reported(a, b, components[n]) {
        var entry := EntryOf(a, b, components[n], FilesFor(a, b, metadataOnly, components[n]));
        assert ComponentEntries(a, b, metadataOnly, components) == before + [entry];
        assert entry.component == components[n];
      }
    }
  }

  /** Components are reported in ascending order. */
  lemma ComponentsAscend(a: Artifact, b: Artifact, metadataOnly: bool)
    ensures EntriesInOrder(Components(a, b, metadataOnly))
  {
    ListingLists(a.digests.Keys + b.digests.Keys);
    EntriesAscend(a, b, metadataOnly, Listing(a.digests.Keys + b.digests.Keys));
  }

  /** A selector restricts the compared descriptors to that one component, and nothing else. */
  lemma RestrictedExactly(x: Artifact, only: string)
    ensures var r := RestrictedTo(x, only);
            && r.annotations == x.annotations && r.schemaVersion == x.schemaVersion && r.subject == x.subject
            && r.components == x.components && r.files == x.files
            && (forall c :: c in r.digests <==> c in x.digests && (only == "" || c == only))
            && (forall c :: c in r.digests ==> r.digests[c] == x.digests[c])
  {
  }

  /** The report of two artifacts outside its lists: both schema versions when they differ and
      else none, and likewise the subjects. */
  lemma HeadExactly(a: Artifact, b: Artifact, metadataOnly: bool)
    ensures var r := ResultOf(a, b, metadataOnly);
            && (a.schemaVersion != b.schemaVersion ==>
                  r.schemaVersionBefore == a.schemaVersion && r.schemaVersionAfter == b.schemaVersion)
            && (a.schemaVersion == b.schemaVersion ==> r.schemaVersionBefore == r.schemaVersionAfter == "")
            && (a.subject != b.subject ==> r.subjectBefore == a.subject && r.subjectAfter == b.subject)
            && (a.subject == b.subject ==> r.subjectBefore == r.subjectAfter == None)
  {
  }

  /** Both artifacts have the same components, digests and entrypoints of them. */
  ghost predicate SameComponents(a: Artifact, b: Artifact) {
    && a.digests == b.digests
    && forall c :: c in a.digests ==> EntrypointOf(a.components, c) == EntrypointOf(b.components, c)
  }

  lemma NoComponentDiffs(a: Artifact, b: Artifact, metadataOnly: bool)
    ensures Components(a, b, metadataOnly) == [] <==> SameComponents(a, b)
  {
    var all := Components(a, b, metadataOnly);
    if all != [] {
      assert all[0] in all;
      EntriesMeaning(a, b, metadataOnly, all[0]);
    } else {
      forall c | c in a.digests || c in b.digests ensures !Reported(a, b, c) {
        EntriesMeaning(a, b, metadataOnly, EntryOf(a, b, c, FilesFor(a, b, metadataOnly, c)));
      }
      forall c ensures Look(a.digests, c) == Look(b.digests, c) {
        assert c in a.digests || c in b.digests ==> !Reported(a, b, c);
      }
      SameLooks(a.digests, b.digests);
    }
  }

  /** Everything the comparison looks at is the same, the schema version aside. */
  ghost predicate SameContent(a: Artifact, b: Artifact) {
    && a.annotations == b.annotations && a.subject == b.subject && SameComponents(a, b)
    && forall c :: LocalesOf(a.components, c) == LocalesOf(b.components, c)
  }

  /** The report says Equal exactly when everything compared is equal and the schema versions are
      equal or the first one is empty. */
  lemma EqualExactly(a: Artifact, b: Artifact, metadataOnly: bool)
    ensures ResultOf(a, b, metadataOnly).equal <==>
            SameContent(a, b) && (a.schemaVersion == b.schemaVersion || a.schemaVersion == "")
    ensures a.schemaVersion != "" ==>
              (ResultOf(a, b, metadataOnly).equal <==> SameContent(a, b) && a.schemaVersion == b.schemaVersion)
  {
    var ds := Deltas(a.annotations, b.annotations);
    EncodedAt(ds, EncodeAnnotation);
    NoDeltas(a.annotations, b.annotations);
    NoLocaleDiffs(a.components, b.components);
    NoComponentDiffs(a, b, metadataOnly);
  }

  /** With an empty version on the first side only, the report says Equal although the schema
      versions differ; the other way round it does not. */
  lemma EmptyVersionIsMissed() returns (a: Artifact, b: Artifact)
    ensures a.schemaVersion != b.schemaVersion
    ensures ResultOf(a, b, false).equal && !ResultOf(b, a, false).equal
  {
    a := Artifact(map[], "", None, map[], map[], (c: string) => None);
    b := a.(schemaVersion := "v1beta");
    EqualExactly(a, b, false);
    EqualExactly(b, a, false);
  }

  function MirrorFile(f: FileDiff): FileDiff {
    FileDiff(f.path,
             match f.change
             case FileAdded => FileRemoved
             case FileRemoved => FileAdded
             case FileModified => FileModified,
             f.sizeAfter, f.sizeBefore)
  }

  function MirrorComponent(d: ComponentDiff): ComponentDiff {
    ComponentDiff(d.component, d.digestAfter, d.digestBefore, d.entrypointAfter, d.entrypointBefore,
                  if d.files.Some? then Some(Encoded(d.files.value, MirrorFile)) else None,
                  match d.presence case Present => Present case Added => Removed case Removed => Added,
                  d.digestChanged, d.entrypointChanged)
  }

  function MirrorResult(r: DiffResult): DiffResult {
    r.(schemaVersionBefore := r.schemaVersionAfter, schemaVersionAfter := r.schemaVersionBefore,
       subjectBefore := r.subjectAfter, subjectAfter := r.subjectBefore,
       annotations := Encoded(r.annotations, MirrorAnnotation),
       components := Encoded(r.components, MirrorComponent),
       locales := Encoded(r.locales, MirrorLocale))
  }

  lemma {:induction false} FilesMirrored(ds: seq<Delta<FileInfo>>)
    requires forall i :: 0 <= i < |ds| ==> ds[i].before.Some? || ds[i].after.Some?
    ensures Encoded(Swapped(ds), EncodeFile) == Encoded(Encoded(ds, EncodeFile), MirrorFile)
  {
    if ds != [] { FilesMirrored(ds[1..]); }
  }

  lemma FileDiffsMirror(a: Files, b: Files)
    ensures FileDiffs(b, a) == Encoded(FileDiffs(a, b), MirrorFile)
  {
    var ds := Deltas(a, b);
    DeltasMirror(a, b);
    forall i | 0 <= i < |ds| ensures ds[i].before.Some? || ds[i].after.Some? {
      assert ds[i] in ds;
      DeltasExactly(a, b, ds[i]);
    }
    FilesMirrored(ds);
  }

  lemma EntryMirrored(a: Artifact, b: Artifact, metadataOnly: bool, c: string)
    requires c in a.digests || c in b.digests
    ensures Reported(b, a, c) == Reported(a, b, c)
    ensures EntryOf(b, a, c, FilesFor(b, a, metadataOnly, c))
            == MirrorComponent(EntryOf(a, b, c, FilesFor(a, b, metadataOnly, c)))
  {
    if Fingerprints(a, c).Some? && Fingerprints(b, c).Some? {
      FileDiffsMirror(Fingerprints(a, c).value, Fingerprints(b, c).value);
    }
  }

  lemma {:induction false} EntriesMirrored(a: Artifact, b: Artifact, metadataOnly: bool, components: seq<string>)
    requires forall c :: c in components ==> c in a.digests || c in b.digests
    ensures ComponentEntries(b, a, metadataOnly, components)
            == Encoded(ComponentEntries(a, b, metadataOnly, components), MirrorComponent)
    decreases |components|
  {
    if components != [] {
      var n := |components| - 1;
      var c := components[n];
      EntriesMirrored(a, b, metadataOnly, components[..n]);
      EntryMirrored(a, b, metadataOnly, c);
      var entry := EntryOf(a, b, c, FilesFor(a, b, metadataOnly, c));
      EncodedConcat(ComponentEntries(a, b, metadataOnly, components[..n]), [entry], MirrorComponent);
      assert Encoded([entry], MirrorComponent) == [MirrorComponent(entry)];
    }
  }

  lemma SameContentSymmetric(a: Artifact, b: Artifact)
    ensures SameContent(a, b) <==> SameContent(b, a)
  {
  }

  /** Swapping the arguments mirrors the whole report, entry by entry and in the same order; the
      verdict is the same except when an empty schema version, on one side only, is all that
      differs. */
  lemma ReportMirrors(a: Artifact, b: Artifact, metadataOnly: bool)
    ensures ResultOf(b, a, metadataOnly).(equal := ResultOf(a, b, metadataOnly).equal)
            == MirrorResult(ResultOf(a, b, metadataOnly))
    ensures ResultOf(b, a, metadataOnly).equal == ResultOf(a, b, metadataOnly).equal <==>
            (a.schemaVersion == "") == (b.schemaVersion == "") || !SameContent(a, b)
  {
    AnnotationsMirror(a.annotations, b.annotations);
    LocalesMirror(a.components, b.components);
    ListingMembers(a.digests.Keys + b.digests.Keys);
    assert a.digests.Keys + b.digests.Keys == b.digests.Keys + a.digests.Keys;
    EntriesMirrored(a, b, metadataOnly, Listing(a.digests.Keys + b.digests.Keys));
    EqualExactly(a, b, metadataOnly);
    EqualExactly(b, a, metadataOnly);
    SameContentSymmetric(a, b);
  }
}
