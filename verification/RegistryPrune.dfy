/** Pruning superseded documentation manifests of one slot (registry/prune.go). */
module RegistryPrune {
  import opened Prelude
  import opened ManagedAnnotations

  type Annotations = map<string, string>

  /** A manifest that refers to the subject. */
  datatype Candidate = Candidate(digest: string, annotations: Annotations)

  datatype Slot = Slot(document: string, variant: string)

  datatype Options = Options(document: string, variant: string, keep: string)

  datatype PruneError = Conflict | NotFound

  /** candidateSlot. */
  function SlotOf(c: Candidate): Slot {
    Slot(Get(c.annotations, KEY_DOCUMENT), Get(c.annotations, KEY_VARIANT))
  }

  predicate SlotMatches(slot: Slot, opts: Options) {
    (opts.document == "" || slot.document == opts.document) && (opts.variant == "" || slot.variant == opts.variant)
  }

  /** matchesPruneSelectors. */
  predicate Matches(c: Candidate, opts: Options) {
    SlotMatches(SlotOf(c), opts)
  }

  function Selecting(opts: Options): Candidate -> bool {
    (c: Candidate) => Matches(c, opts)
  }

  function InSlot(slot: Slot): Candidate -> bool {
    (c: Candidate) => SlotOf(c) == slot
  }

  function OtherThan(digest: string): Candidate -> bool {
    (c: Candidate) => c.digest != digest
  }

  ghost function DigestSet(cs: seq<Candidate>): set<string> {
    set c | c in cs :: c.digest
  }

  /** filterPruneSelectors. */
  method FilterPruneSelectors(candidates: seq<Candidate>, opts: Options) returns (filtered: seq<Candidate>)
    ensures filtered == Filter(candidates, Selecting(opts))
  {
    filtered := [];
    var i := 0;
    while i < |candidates|
      invariant i <= |candidates| && filtered == Filter(candidates[..i], Selecting(opts))
    {
      FilterAppend(candidates[..i], candidates[i], Selecting(opts));
      assert candidates[..i + 1] == candidates[..i] + [candidates[i]];
      if Matches(candidates[i], opts) {
        filtered := filtered + [candidates[i]];
      }
      i := i + 1;
    }
    assert candidates[..i] == candidates;
  }

  /** No two candidates have the same digest. */
  ghost predicate OneEach(cs: seq<Candidate>) {
    forall i, j :: 0 <= i < j < |cs| ==> cs[i].digest != cs[j].digest
  }

  lemma TailDistinct(cs: seq<Candidate>)
    requires cs != [] && OneEach(cs)
    ensures OneEach(cs[1..]) && forall c :: c in cs[1..] ==> c.digest != cs[0].digest
  {
    forall c | c in cs[1..] ensures c.digest != cs[0].digest {
      var i :| 0 <= i < |cs[1..]| && cs[1..][i] == c;
      assert cs[0].digest != cs[i + 1].digest;
    }
  }

  lemma {:induction false} FilterCandidates(cs: seq<Candidate>, keep: Candidate -> bool)
    ensures forall c :: c in Filter(cs, keep) <==> c in cs && keep(c)
    ensures OneEach(cs) ==> OneEach(Filter(cs, keep))
  {
    if cs != [] {
      FilterCandidates(cs[1..], keep);
      assert cs == [cs[0]] + cs[1..];
      if OneEach(cs) {
        TailDistinct(cs);
        var rest := Filter(cs[1..], keep);
        forall j | 0 <= j < |rest| ensures rest[j].digest != cs[0].digest {
          assert rest[j] in cs[1..];
        }
      }
    }
  }

  /** Insertion by digest, as the stable sort of filterSlot leaves distinct digests. */
  function InsertByDigest(c: Candidate, cs: seq<Candidate>): seq<Candidate> {
    if cs == [] then [c]
    else if Le(c.digest, cs[0].digest) then [c] + cs
    else [cs[0]] + InsertByDigest(c, cs[1..])
  }

  function SortByDigest(cs: seq<Candidate>): seq<Candidate> {
    if cs == [] then [] else InsertByDigest(cs[0], SortByDigest(cs[1..]))
  }

  /** Strictly ascending digests. */
  ghost predicate Ordered(cs: seq<Candidate>) {
    forall i, j :: 0 <= i < j < |cs| ==> Lt(cs[i].digest, cs[j].digest)
  }

  lemma OrderedCons(first: Candidate, rest: seq<Candidate>, c: Candidate, cs: seq<Candidate>)
    requires cs != [] && first == cs[0] && Ordered(cs) && Ordered(rest) && c.digest != first.digest
    requires forall x :: x in rest ==> x == c || x in cs[1..]
    requires forall j :: 0 <= j < |rest| ==> Le(first.digest, rest[j].digest)
    ensures Ordered([first] + rest)
  {
    forall j | 0 <= j < |rest| ensures rest[j].digest != first.digest {
      assert rest[j] in rest;
      if rest[j] in cs[1..] {
        var i :| 0 <= i < |cs[1..]| && cs[1..][i] == rest[j];
        assert Lt(cs[0].digest, cs[i + 1].digest);
      }
    }
  }

  lemma {:induction false} Inserted(c: Candidate, cs: seq<Candidate>)
    ensures forall x :: x in InsertByDigest(c, cs) <==> x == c || x in cs
    ensures Ordered(cs) && (forall x :: x in cs ==> x.digest != c.digest) ==> Ordered(InsertByDigest(c, cs))
  {
    if cs != [] {
      if Le(c.digest, cs[0].digest) {
        forall j | 0 < j < |cs| && Ordered(cs) ensures Le(c.digest, cs[j].digest) {
          assert Lt(cs[0].digest, cs[j].digest);
          LeTransitive(c.digest, cs[0].digest, cs[j].digest);
        }
      } else {
        LeTotal(c.digest, cs[0].digest);
        Inserted(c, cs[1..]);
        var rest := InsertByDigest(c, cs[1..]);
        forall j | 0 <= j < |rest| && Ordered(cs) ensures Le(cs[0].digest, rest[j].digest) {
          if rest[j] in cs[1..] {
            var i :| 0 <= i < |cs[1..]| && cs[1..][i] == rest[j];
            assert Lt(cs[0].digest, cs[i + 1].digest);
          }
        }
        if Ordered(cs) && forall x :: x in cs ==> x.digest != c.digest {
          assert cs[0] in cs;
          assert forall x :: x in cs[1..] ==> x in cs;
          OrderedCons(cs[0], rest, c, cs);
        }
      }
    }
  }

  lemma {:induction false} SortedByDigest(cs: seq<Candidate>)
    ensures forall x :: x in SortByDigest(cs) <==> x in cs
    ensures OneEach(cs) ==> Ordered(SortByDigest(cs))
  {
    if cs != [] {
      assert cs == [cs[0]] + cs[1..];
      SortedByDigest(cs[1..]);
      Inserted(cs[0], SortByDigest(cs[1..]));
      if OneEach(cs) { TailDistinct(cs); }
    }
  }

  lemma {:induction false} KeepingOrdered(cs: seq<Candidate>, keep: Candidate -> bool)
    requires Ordered(cs)
    ensures Ordered(Filter(cs, keep))
  {
    if cs != [] {
      KeepingOrdered(cs[1..], keep);
      FilterCandidates(cs[1..], keep);
      var rest := Filter(cs[1..], keep);
      forall j | 0 <= j < |rest| ensures Lt(cs[0].digest, rest[j].digest) {
        assert rest[j] in cs[1..];
        var i :| 0 <= i < |cs[1..]| && cs[1..][i] == rest[j];
        assert Lt(cs[0].digest, cs[i + 1].digest);
      }
    }
  }

  /** filterSlot. */
  method FilterSlot(candidates: seq<Candidate>, slot: Slot) returns (matched: seq<Candidate>)
    ensures matched == SortByDigest(Filter(candidates, InSlot(slot)))
  {
    matched := [];
    var i := 0;
    while i < |candidates|
      invariant i <= |candidates| && matched == Filter(candidates[..i], InSlot(slot))
    {
      FilterAppend(candidates[..i], candidates[i], InSlot(slot));
      assert candidates[..i + 1] == candidates[..i] + [candidates[i]];
      if SlotOf(candidates[i]) == slot {
        matched := matched + [candidates[i]];
      }
      i := i + 1;
    }
    assert candidates[..i] == candidates;
    matched := SortByDigest(matched);
  }

  const NO_CANDIDATE := Candidate("", map[])

  function FirstWithDigest(candidates: seq<Candidate>, digest: string): (r: Option<Candidate>)
    ensures r.Some? ==> r.value in candidates && r.value.digest == digest
    ensures r.None? ==> forall c :: c in candidates ==> c.digest != digest
  {
    if candidates == [] then None
    else if candidates[0].digest == digest then Some(candidates[0])
    else FirstWithDigest(candidates[1..], digest)
  }

  /** selectPruneKeep. Without a candidate and without a request there is nothing to keep. */
  function SelectPruneKeep(primary: Option<Candidate>, candidates: seq<Candidate>, opts: Options)
    : Result<(Candidate, Slot), PruneError>
  {
    if primary.Some? && Matches(primary.value, opts) then
      if opts.keep != "" && opts.keep != primary.value.digest then Err(Conflict)
      else Ok((primary.value, SlotOf(primary.value)))
    else if candidates == [] then
      if opts.keep != "" then Err(NotFound) else Ok((NO_CANDIDATE, Slot("", "")))
    else if opts.keep == "" then Err(Conflict)
    else match FirstWithDigest(candidates, opts.keep)
      case Some(c) => Ok((c, SlotOf(c)))
      case None => Err(NotFound)
  }

  datatype Plan = Plan(keep: Candidate, matched: seq<Candidate>, selected: seq<Candidate>)

  /** planPrune as a function. */
  function Planned(primary: Option<Candidate>, candidates: seq<Candidate>, opts: Options): Result<Plan, PruneError> {
    var matching := Filter(candidates, Selecting(opts));
    match SelectPruneKeep(primary, matching, opts)
    case Err(e) => Err(e)
    case Ok((keep, slot)) =>
      var matched := SortByDigest(Filter(matching, InSlot(slot)));
      Ok(Plan(keep, matched, Filter(matched, OtherThan(keep.digest))))
  }

  /** The candidates of the slot other than the kept one. */
  method SelectOthers(matched: seq<Candidate>, keep: string) returns (selected: seq<Candidate>)
    ensures selected == Filter(matched, OtherThan(keep))
  {
    selected := [];
    var i := 0;
    while i < |matched|
      invariant i <= |matched| && selected == Filter(matched[..i], OtherThan(keep))
    {
      FilterAppend(matched[..i], matched[i], OtherThan(keep));
      assert matched[..i + 1] == matched[..i] + [matched[i]];
      if matched[i].digest != keep {
        selected := selected + [matched[i]];
      }
      i := i + 1;
    }
    assert matched[..i] == matched;
  }

  method PlanPrune(primary: Option<Candidate>, candidates: seq<Candidate>, opts: Options)
    returns (r: Result<Plan, PruneError>)
    ensures r == Planned(primary, candidates, opts)
  {
    var matching := FilterPruneSelectors(candidates, opts);
    var chosen := SelectPruneKeep(primary, matching, opts);
    if chosen.Err? {
      return Err(chosen.error);
    }
    var (keep, slot) := chosen.value;
    var matched := FilterSlot(matching, slot);
    var selected := SelectOthers(matched, keep.digest);
    return Ok(Plan(keep, matched, selected));
  }

  lemma NotYetGone(selected: seq<Candidate>, i: nat)
    requires i < |selected| && OneEach(selected)
    ensures selected[i].digest !in DigestSet(selected[..i])
    ensures DigestSet(selected[..i + 1]) == DigestSet(selected[..i]) + {selected[i].digest}
  {
    forall k | 0 <= k < i ensures selected[..i][k].digest != selected[i].digest {
      assert selected[k].digest != selected[i].digest;
    }
    assert selected[..i + 1] == selected[..i] + [selected[i]];
  }

  /** A repository: the manifests that refer to the subject, and where the documentation tag
      points. A digest has one content, hence one set of annotations. */
  class Repository {
    var manifests: map<string, Annotations>
    const tag: Option<string>

    constructor (manifests: map<string, Annotations>, tag: Option<string>)
      ensures this.manifests == manifests && this.tag == tag
    {
      this.manifests, this.tag := manifests, tag;
    }

    /** Delete: a failing call may still have removed the manifest. */
    method Delete(digest: string, fails: bool, lost: bool) returns (ok: bool)
      modifies this
      ensures ok <==> !fails && digest in old(manifests)
      ensures manifests == if digest in old(manifests) && (!fails || lost) then old(manifests) - {digest}
                           else old(manifests)
    {
      if digest !in manifests {
        return false;
      }
      if !fails || lost {
        manifests := manifests - {digest};
      }
      return !fails;
    }

    /** executePrune, with the deletion of number failAt failing. */
    method ExecutePrune(selected: seq<Candidate>, failAt: nat, lost: bool) returns (deleted: seq<Candidate>, ok: bool)
      requires OneEach(selected) && forall c :: c in selected ==> c.digest in manifests
      modifies this
      ensures deleted == if failAt < |selected| then selected[..failAt] else selected
      ensures ok <==> failAt >= |selected|
      ensures manifests == old(manifests) - DigestSet(deleted)
                           - if !ok && lost then {selected[failAt].digest} else {}
    {
      deleted := [];
      var i := 0;
      ghost var gone: set<string> := {};
      while i < |selected|
        invariant i <= |selected| && i <= failAt && deleted == selected[..i]
        invariant gone == DigestSet(selected[..i]) && manifests == old(manifests) - gone
      {
        NotYetGone(selected, i);
        ok := Delete(selected[i].digest, i == failAt, lost);
        if !ok {
          return;
        }
        deleted := deleted + [selected[i]];
        gone := gone + {selected[i].digest};
        i := i + 1;
      }
      assert selected[..i] == selected;
      ok := true;
    }
  }

  /** What a run sees of the repository: every manifest as a candidate, in any order, and the
      manifest that the documentation tag names, if there is one. */
  ghost predicate IsListing(manifests: map<string, Annotations>, candidates: seq<Candidate>) {
    && OneEach(candidates)
    && forall c :: c in candidates <==> c.digest in manifests && manifests[c.digest] == c.annotations
  }

  function PrimaryOf(manifests: map<string, Annotations>, tag: Option<string>): Option<Candidate> {
    if tag.Some? && tag.value in manifests then Some(Candidate(tag.value, manifests[tag.value])) else None
  }

  /** The value of an annotation, an absent one being empty. */
  predicate IsAt(x: Annotations, key: string, value: string) {
    if key in x then x[key] == value else value == ""
  }

  ghost predicate SameAt(x: Annotations, y: Annotations, key: string) {
    forall value :: IsAt(x, key, value) <==> IsAt(y, key, value)
  }

  /** Both annotations that make up a slot agree. */
  ghost predicate SameSlot(x: Annotations, y: Annotations) {
    SameAt(x, y, KEY_DOCUMENT) && SameAt(x, y, KEY_VARIANT)
  }

  /** The annotations meet every selector that is given. */
  predicate Wanted(x: Annotations, opts: Options) {
    && (opts.document == "" || IsAt(x, KEY_DOCUMENT, opts.document))
    && (opts.variant == "" || IsAt(x, KEY_VARIANT, opts.variant))
  }

  lemma SameAtMeans(x: Annotations, y: Annotations, key: string)
    ensures SameAt(x, y, key) <==> Get(x, key) == Get(y, key)
  {
    assert IsAt(x, key, Get(x, key)) && IsAt(y, key, Get(y, key));
  }

  /** What slots and selectors say of the annotations. */
  lemma SlotsMean(c: Candidate, d: Candidate, opts: Options)
    ensures SlotOf(c) == SlotOf(d) <==> SameSlot(c.annotations, d.annotations)
    ensures Matches(c, opts) <==> Wanted(c.annotations, opts)
  {
    SameAtMeans(c.annotations, d.annotations, KEY_DOCUMENT);
    SameAtMeans(c.annotations, d.annotations, KEY_VARIANT);
  }

  lemma {:induction false} SelectedInSlot(manifests: map<string, Annotations>, tag: Option<string>, opts: Options,
                                          candidates: seq<Candidate>)
    requires IsListing(manifests, candidates)
    ensures var r := Planned(PrimaryOf(manifests, tag), candidates, opts);
            r.Ok? ==>
              && Ordered(r.value.selected) && Ordered(r.value.matched)
              && (forall c :: c in r.value.matched <==>
                    c in candidates && SlotOf(c) == SlotOf(r.value.keep) && Matches(c, opts))
              && forall c :: c in r.value.selected <==>
                   c in candidates && SlotOf(c) == SlotOf(r.value.keep) && Matches(c, opts)
                   && c.digest != r.value.keep.digest
  {
    var matching := Filter(candidates, Selecting(opts));
    FilterCandidates(candidates, Selecting(opts));
    var chosen := SelectPruneKeep(PrimaryOf(manifests, tag), matching, opts);
    if chosen.Ok? {
      var (keep, slot) := chosen.value;
      var inSlot := Filter(matching, InSlot(slot));
      FilterCandidates(matching, InSlot(slot));
      SortedByDigest(inSlot);
      FilterCandidates(SortByDigest(inSlot), OtherThan(keep.digest));
      KeepingOrdered(SortByDigest(inSlot), OtherThan(keep.digest));
    }
  }

  /** The listed manifests of the slot are the wanted ones that agree with the kept one in both
      annotations, in digest order, and all of them but the kept one are selected. */
  lemma SelectedExactly(manifests: map<string, Annotations>, tag: Option<string>, opts: Options,
                        candidates: seq<Candidate>)
    requires IsListing(manifests, candidates)
    ensures var r := Planned(PrimaryOf(manifests, tag), candidates, opts);
            r.Ok? ==>
              && Ordered(r.value.selected) && Ordered(r.value.matched)
              && (forall c :: c in r.value.matched <==>
                    c in candidates && SameSlot(c.annotations, r.value.keep.annotations) && Wanted(c.annotations, opts))
              && forall c :: c in r.value.selected <==>
                   c in candidates && SameSlot(c.annotations, r.value.keep.annotations)
                   && Wanted(c.annotations, opts) && c.digest != r.value.keep.digest
  {
    SelectedInSlot(manifests, tag, opts, candidates);
    var r := Planned(PrimaryOf(manifests, tag), candidates, opts);
    if r.Ok? {
      forall c ensures SlotOf(c) == SlotOf(r.value.keep) <==> SameSlot(c.annotations, r.value.keep.annotations)
               ensures Matches(c, opts) <==> Wanted(c.annotations, opts)
      {
        SlotsMean(c, r.value.keep, opts);
      }
    }
  }

  lemma OrderedIsOneEach(cs: seq<Candidate>)
    requires Ordered(cs)
    ensures OneEach(cs)
  {
    forall i, j | 0 <= i < j < |cs| ensures cs[i].digest != cs[j].digest {
      assert Lt(cs[i].digest, cs[j].digest);
    }
  }

  ghost predicate RemovesWithin(before: map<string, Annotations>, removable: set<string>,
                                after: map<string, Annotations>)
  {
    && (forall d :: d in after ==> d in before && after[d] == before[d])
    && (forall d :: d in before && d !in removable ==> d in after)
  }

  /** What one run may do to the manifests: nothing on error; otherwise it removes some of the
      selected ones, and all of them if it completes. */
  ghost predicate Ran(before: map<string, Annotations>, tag: Option<string>, opts: Options,
                      candidates: seq<Candidate>, complete: bool, after: map<string, Annotations>)
  {
    match Planned(PrimaryOf(before, tag), candidates, opts)
    case Err(_) => after == before && !complete
    case Ok(plan) =>
      && RemovesWithin(before, DigestSet(plan.selected), after)
      && (complete ==> after.Keys !! DigestSet(plan.selected))
  }

  lemma DeletedPart(selected: seq<Candidate>, failAt: nat)
    ensures failAt < |selected| ==>
              DigestSet(selected[..failAt]) <= DigestSet(selected) && selected[failAt].digest in DigestSet(selected)
  {
  }

  /** Prune with Execute set, with the deletion of number failAt failing. */
  method Prune(repo: Repository, opts: Options, candidates: seq<Candidate>, failAt: nat, lost: bool)
    returns (r: Result<Plan, PruneError>, complete: bool)
    requires IsListing(repo.manifests, candidates)
    modifies repo
    ensures r == Planned(PrimaryOf(old(repo.manifests), repo.tag), candidates, opts)
    ensures Ran(old(repo.manifests), repo.tag, opts, candidates, complete, repo.manifests)
  {
    r := PlanPrune(PrimaryOf(repo.manifests, repo.tag), candidates, opts);
    complete := r.Ok?;
    if r.Err? {
      return;
    }
    SelectedInSlot(repo.manifests, repo.tag, opts, candidates);
    if r.value.matched == [] {
      return;
    }
    OrderedIsOneEach(r.value.selected);
    var deleted, ok := repo.ExecutePrune(r.value.selected, failAt, lost);
    complete := ok;
    DeletedPart(r.value.selected, failAt);
  }

  predicate MatchesAt(m: map<string, Annotations>, opts: Options, d: string) {
    d in m && Matches(Candidate(d, m[d]), opts)
  }

  ghost predicate AnyMatch(m: map<string, Annotations>, opts: Options) {
    exists d :: MatchesAt(m, opts, d)
  }

  /** The kept manifest as a function of the repository alone. */
  ghost function Choice(m: map<string, Annotations>, tag: Option<string>, opts: Options)
    : Result<Candidate, PruneError>
  {
    var primary := PrimaryOf(m, tag);
    if primary.Some? && Matches(primary.value, opts) then
      if opts.keep != "" && opts.keep != primary.value.digest then Err(Conflict) else Ok(primary.value)
    else if !AnyMatch(m, opts) then
      if opts.keep != "" then Err(NotFound) else Ok(NO_CANDIDATE)
    else if opts.keep == "" then Err(Conflict)
    else if MatchesAt(m, opts, opts.keep) then Ok(Candidate(opts.keep, m[opts.keep]))
    else Err(NotFound)
  }

  lemma MatchingListed(m: map<string, Annotations>, opts: Options, candidates: seq<Candidate>)
    requires IsListing(m, candidates)
    ensures var matching := Filter(candidates, Selecting(opts));
            && (matching != [] <==> AnyMatch(m, opts))
            && var found := FirstWithDigest(matching, opts.keep);
               if MatchesAt(m, opts, opts.keep) then found == Some(Candidate(opts.keep, m[opts.keep])) else found.None?
  {
    var matching := Filter(candidates, Selecting(opts));
    FilterCandidates(candidates, Selecting(opts));
    if matching != [] {
      assert matching[0] in matching;
      assert MatchesAt(m, opts, matching[0].digest);
    }
    forall d | MatchesAt(m, opts, d) ensures Candidate(d, m[d]) in matching {
      assert Candidate(d, m[d]) in candidates;
    }
  }

  /** The order of the listing does not matter for what is kept. */
  lemma PlannedChoice(m: map<string, Annotations>, tag: Option<string>, opts: Options, candidates: seq<Candidate>)
    requires IsListing(m, candidates)
    ensures match Planned(PrimaryOf(m, tag), candidates, opts)
            case Err(e) => Choice(m, tag, opts) == Err(e)
            case Ok(plan) => Choice(m, tag, opts) == Ok(plan.keep)
  {
    MatchingListed(m, opts, candidates);
  }

  /** Manifest d shares the slot of the kept manifest and is not it. */
  ghost predicate Superseded(m: map<string, Annotations>, tag: Option<string>, opts: Options, d: string) {
    && MatchesAt(m, opts, d) && Choice(m, tag, opts).Ok?
    && SlotOf(Candidate(d, m[d])) == SlotOf(Choice(m, tag, opts).value)
    && d != Choice(m, tag, opts).value.digest
  }

  /** One run removes superseded manifests only, and all of them if it completes. */
  lemma RunRemoves(m: map<string, Annotations>, tag: Option<string>, opts: Options, candidates: seq<Candidate>,
                   complete: bool, after: map<string, Annotations>, d: string)
    requires IsListing(m, candidates) && Ran(m, tag, opts, candidates, complete, after)
    ensures d in after ==> d in m && after[d] == m[d]
    ensures d in m && !Superseded(m, tag, opts, d) ==> d in after
    ensures complete && Superseded(m, tag, opts, d) ==> d !in after
  {
    PlannedChoice(m, tag, opts, candidates);
    SelectedInSlot(m, tag, opts, candidates);
    var r := Planned(PrimaryOf(m, tag), candidates, opts);
    if r.Ok? && d in m {
      var c := Candidate(d, m[d]);
      assert c in candidates;
      if d in DigestSet(r.value.selected) {
        var x :| x in r.value.selected && x.digest == d;
        assert x == c;
      }
      if c in r.value.selected { assert d in DigestSet(r.value.selected); }
    }
  }

  /** The manifest that the documentation tag names is never superseded, even when it does not
      match the selectors. */
  lemma PrimaryNotSuperseded(m: map<string, Annotations>, tag: Option<string>, opts: Options)
    ensures tag.Some? ==> !Superseded(m, tag, opts, tag.value)
  {
  }

  lemma ChoiceSurvives(m: map<string, Annotations>, tag: Option<string>, opts: Options, after: map<string, Annotations>)
    requires Choice(m, tag, opts).Ok?
    requires forall d :: d in after ==> d in m && after[d] == m[d]
    requires forall d :: d in m && !Superseded(m, tag, opts, d) ==> d in after
    ensures Choice(after, tag, opts) == Choice(m, tag, opts)
  {
    var keep := Choice(m, tag, opts).value;
    PrimaryNotSuperseded(m, tag, opts);
    if tag.Some? && tag.value in m { assert tag.value in after; }
    if opts.keep in m { assert Superseded(m, tag, opts, opts.keep) ==> keep.digest != opts.keep; }
    forall d | MatchesAt(after, opts, d) ensures MatchesAt(m, opts, d) {}
    if MatchesAt(m, opts, keep.digest) { assert MatchesAt(after, opts, keep.digest); }
  }

  /** What a run keeps, the next run keeps, whether or not the first one completed. */
  lemma ChoiceStable(m: map<string, Annotations>, tag: Option<string>, opts: Options, candidates: seq<Candidate>,
                     complete: bool, after: map<string, Annotations>)
    requires IsListing(m, candidates) && Ran(m, tag, opts, candidates, complete, after)
    ensures Choice(after, tag, opts) == Choice(m, tag, opts)
  {
    PlannedChoice(m, tag, opts, candidates);
    if Choice(m, tag, opts).Ok? {
      forall d
        ensures d in after ==> d in m && after[d] == m[d]
        ensures d in m && !Superseded(m, tag, opts, d) ==> d in after
      {
        RunRemoves(m, tag, opts, candidates, complete, after, d);
      }
      ChoiceSurvives(m, tag, opts, after);
    }
  }

  ghost predicate IsRun(tag: Option<string>, opts: Options, states: seq<map<string, Annotations>>,
                        listings: seq<seq<Candidate>>, complete: seq<bool>, i: nat)
    requires i < |listings| && |states| == |listings| + 1 && |complete| == |listings|
  {
    IsListing(states[i], listings[i]) && Ran(states[i], tag, opts, listings[i], complete[i], states[i + 1])
  }

  /** Any number of runs with the same options, each on its own listing, each possibly failing. */
  ghost predicate IsHistory(tag: Option<string>, opts: Options, states: seq<map<string, Annotations>>,
                            listings: seq<seq<Candidate>>, complete: seq<bool>)
  {
    && |states| == |listings| + 1 && |complete| == |listings|
    && forall i :: 0 <= i < |listings| ==> IsRun(tag, opts, states, listings, complete, i)
  }

  /** Along every history the choice never changes, nothing appears or changes, and every manifest
      outside the superseded ones survives: the kept one, the tag's, and those of other slots. */
  lemma {:induction false} HistoryIsSafe(tag: Option<string>, opts: Options, states: seq<map<string, Annotations>>,
                                         listings: seq<seq<Candidate>>, complete: seq<bool>, n: nat, d: string)
    requires IsHistory(tag, opts, states, listings, complete) && n < |states|
    ensures Choice(states[n], tag, opts) == Choice(states[0], tag, opts)
    ensures d in states[n] ==> d in states[0] && states[n][d] == states[0][d]
    ensures d in states[0] && !Superseded(states[0], tag, opts, d) ==> d in states[n]
  {
    if n > 0 {
      HistoryIsSafe(tag, opts, states, listings, complete, n - 1, d);
      assert IsRun(tag, opts, states, listings, complete, n - 1);
      ChoiceStable(states[n - 1], tag, opts, listings[n - 1], complete[n - 1], states[n]);
      RunRemoves(states[n - 1], tag, opts, listings[n - 1], complete[n - 1], states[n], d);
    }
  }

  lemma SomeMember(cs: seq<Candidate>)
    ensures cs != [] ==> exists c :: c in cs
  {
    if cs != [] { assert cs[0] in cs; }
  }

  /** A run supersedes nothing new, and a completed one leaves nothing superseded. */
  lemma NoReturn(m: map<string, Annotations>, tag: Option<string>, opts: Options, candidates: seq<Candidate>,
                 complete: bool, after: map<string, Annotations>, d: string)
    requires IsListing(m, candidates) && Ran(m, tag, opts, candidates, complete, after)
    ensures complete || !Superseded(m, tag, opts, d) ==> !Superseded(after, tag, opts, d)
  {
    RunRemoves(m, tag, opts, candidates, complete, after, d);
    ChoiceStable(m, tag, opts, candidates, complete, after);
  }

  lemma HistoryStep(tag: Option<string>, opts: Options, states: seq<map<string, Annotations>>,
                    listings: seq<seq<Candidate>>, complete: seq<bool>, i: nat, d: string)
    requires IsHistory(tag, opts, states, listings, complete) && i < |listings|
    ensures complete[i] || !Superseded(states[i], tag, opts, d) ==> !Superseded(states[i + 1], tag, opts, d)
  {
    assert IsRun(tag, opts, states, listings, complete, i);
    NoReturn(states[i], tag, opts, listings[i], complete[i], states[i + 1], d);
  }

  lemma {:induction false} NothingLeft(tag: Option<string>, opts: Options, states: seq<map<string, Annotations>>,
                                       listings: seq<seq<Candidate>>, complete: seq<bool>, done: nat, n: nat, d: string)
    requires IsHistory(tag, opts, states, listings, complete) && done < n < |states| && complete[done]
    ensures !Superseded(states[n], tag, opts, d)
  {
    HistoryStep(tag, opts, states, listings, complete, n - 1, d);
    if n - 1 > done {
      NothingLeft(tag, opts, states, listings, complete, done, n - 1, d);
    }
  }

  /** Once a run completes, the slot of the kept manifest holds nothing else, and every later run
      selects nothing. */
  lemma {:induction false} CompletedRunIsFinal(tag: Option<string>, opts: Options,
                                               states: seq<map<string, Annotations>>, listings: seq<seq<Candidate>>,
                                               complete: seq<bool>, done: nat, n: nat)
    requires IsHistory(tag, opts, states, listings, complete) && done < n < |states| && complete[done]
    ensures forall d :: !Superseded(states[n], tag, opts, d)
    ensures n < |listings| ==> Planned(PrimaryOf(states[n], tag), listings[n], opts).Ok?
                               && Planned(PrimaryOf(states[n], tag), listings[n], opts).value.selected == []
  {
    assert IsRun(tag, opts, states, listings, complete, done);
    PlannedChoice(states[done], tag, opts, listings[done]);
    assert Choice(states[done], tag, opts).Ok?;
    HistoryIsSafe(tag, opts, states, listings, complete, done, "");
    HistoryIsSafe(tag, opts, states, listings, complete, n, "");
    forall d ensures !Superseded(states[n], tag, opts, d) {
      NothingLeft(tag, opts, states, listings, complete, done, n, d);
    }
    if n < |listings| {
      assert IsRun(tag, opts, states, listings, complete, n);
      PlannedChoice(states[n], tag, opts, listings[n]);
      SelectedInSlot(states[n], tag, opts, listings[n]);
      var selected := Planned(PrimaryOf(states[n], tag), listings[n], opts).value.selected;
      forall c ensures c !in selected { assert !Superseded(states[n], tag, opts, c.digest); }
      SomeMember(selected);
    }
  }

  /** Who is kept, on the annotations alone: the manifest of the documentation tag if it is
      wanted, else the requested one if that is wanted; a request for another than the tag's is
      a conflict, as is none at all while some manifest is wanted. */
  lemma KeptExactly(m: map<string, Annotations>, tag: Option<string>, opts: Options)
    ensures var primary := tag.Some? && tag.value in m && Wanted(m[tag.value], opts);
            var requested := opts.keep in m && Wanted(m[opts.keep], opts);
            var any := exists d :: d in m && Wanted(m[d], opts);
            match Choice(m, tag, opts)
            case Ok(keep) =>
              || (primary && opts.keep in ["", tag.value] && keep == Candidate(tag.value, m[tag.value]))
              || (!primary && any && opts.keep != "" && requested && keep == Candidate(opts.keep, m[opts.keep]))
              || (!primary && !any && opts.keep == "" && keep == NO_CANDIDATE)
            case Err(Conflict) => (primary && opts.keep !in ["", tag.value]) || (!primary && any && opts.keep == "")
            case Err(NotFound) => !primary && opts.keep != "" && !requested
  {
    forall d | d in m ensures MatchesAt(m, opts, d) <==> Wanted(m[d], opts) {
      SlotsMean(Candidate(d, m[d]), Candidate(d, m[d]), opts);
    }
    if d :| d in m && Wanted(m[d], opts) { assert MatchesAt(m, opts, d); }
  }

  lemma SupersededMeans(m: map<string, Annotations>, tag: Option<string>, opts: Options, d: string)
    ensures Superseded(m, tag, opts, d) <==>
            && d in m && Choice(m, tag, opts).Ok? && Wanted(m[d], opts)
            && SameSlot(m[d], Choice(m, tag, opts).value.annotations)
            && d != Choice(m, tag, opts).value.digest
  {
    if d in m && Choice(m, tag, opts).Ok? { SlotsMean(Candidate(d, m[d]), Choice(m, tag, opts).value, opts); }
  }

  /** Along every history, whatever the runs do or fail to do: a manifest of another document or
      variant than the kept one survives unchanged, and so does one that a selector excludes. */
  lemma OthersSurvive(tag: Option<string>, opts: Options, states: seq<map<string, Annotations>>,
                      listings: seq<seq<Candidate>>, complete: seq<bool>, n: nat, d: string)
    requires IsHistory(tag, opts, states, listings, complete) && n < |states| && d in states[0]
    requires || Choice(states[0], tag, opts).Err?
             || !SameAt(states[0][d], Choice(states[0], tag, opts).value.annotations, KEY_DOCUMENT)
             || !SameAt(states[0][d], Choice(states[0], tag, opts).value.annotations, KEY_VARIANT)
             || (opts.document != "" && !IsAt(states[0][d], KEY_DOCUMENT, opts.document))
             || (opts.variant != "" && !IsAt(states[0][d], KEY_VARIANT, opts.variant))
    ensures d in states[n] && states[n][d] == states[0][d]
  {
    SupersededMeans(states[0], tag, opts, d);
    HistoryIsSafe(tag, opts, states, listings, complete, n, d);
  }

  /** After a completed run that keeps a manifest, no other manifest of the same document and
      variant is left. */
  lemma SlotIsEmptied(tag: Option<string>, opts: Options, states: seq<map<string, Annotations>>,
                      listings: seq<seq<Candidate>>, complete: seq<bool>, done: nat, n: nat, d: string)
    requires IsHistory(tag, opts, states, listings, complete) && done < n < |states| && complete[done]
    requires Choice(states[n], tag, opts).Ok? && Choice(states[n], tag, opts).value.digest != ""
    ensures var keep := Choice(states[n], tag, opts).value;
            d in states[n] && SameSlot(states[n][d], keep.annotations) ==> d == keep.digest
  {
    var keep := Choice(states[n], tag, opts).value;
    CompletedRunIsFinal(tag, opts, states, listings, complete, done, n);
    KeptExactly(states[n], tag, opts);
    assert !Superseded(states[n], tag, opts, d);
    SupersededMeans(states[n], tag, opts, d);
    if d in states[n] && SameSlot(states[n][d], keep.annotations) {
      SlotsMean(Candidate(d, states[n][d]), keep, opts);
      SlotsMean(keep, keep, opts);
    }
  }
}
