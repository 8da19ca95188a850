/** What dependency discovery computes: reachability along references, ownership by the nearest
    component, and a conflict exactly at a tie. */
module DependencyTheory {
  import opened Prelude
  import opened Dependencies

  ghost predicate Refers(ts: seq<Target>, q: string) {
    exists i :: 0 <= i < |ts| && ts[i].At? && ts[i].path == q
  }

  /** Document p refers to the regular, non-ignored file q. */
  ghost predicate Edge(w: World, p: string, q: string) {
    && w.isMarkdown(p) && w.targets(p).Some? && q in w.files && !w.ignored(q)
    && Refers(w.targets(p).value, q)
  }

  /** A target that names neither a file nor an ignored path. */
  predicate Dangling(w: World, t: Target) {
    t.At? && !w.ignored(t.path) && t.path !in w.files
  }

  predicate BadTarget(w: World, strict: bool, t: Target) {
    t.Escapes? || (strict && Dangling(w, t))
  }

  ghost predicate BadTargets(w: World, strict: bool, ts: seq<Target>) {
    exists i :: 0 <= i < |ts| && BadTarget(w, strict, ts[i])
  }

  /** A document that stops discovery when it is scanned. */
  ghost predicate Faulty(w: World, strict: bool, p: string) {
    w.isMarkdown(p) && (w.targets(p).None? || BadTargets(w, strict, w.targets(p).value))
  }

  predicate Has(claims: Claims, q: string, c: string) {
    q in claims && c in claims[q]
  }

  lemma RefersCons(ts: seq<Target>, q: string)
    requires ts != []
    ensures Refers(ts, q) <==> (ts[0].At? && ts[0].path == q) || Refers(ts[1..], q)
  {
    if Refers(ts, q) {
      var i :| 0 <= i < |ts| && ts[i].At? && ts[i].path == q;
      if i > 0 { assert ts[1..][i - 1] == ts[i]; }
    }
    if Refers(ts[1..], q) {
      var i :| 0 <= i < |ts[1..]| && ts[1..][i].At? && ts[1..][i].path == q;
      assert ts[i + 1] == ts[1..][i];
    }
  }

  lemma BadCons(w: World, strict: bool, ts: seq<Target>)
    requires ts != []
    ensures BadTargets(w, strict, ts) <==> BadTarget(w, strict, ts[0]) || BadTargets(w, strict, ts[1..])
  {
    if BadTargets(w, strict, ts) {
      var i :| 0 <= i < |ts| && BadTarget(w, strict, ts[i]);
      if i > 0 { assert ts[1..][i - 1] == ts[i]; }
    }
    if BadTargets(w, strict, ts[1..]) {
      var i :| 0 <= i < |ts[1..]| && BadTarget(w, strict, ts[1..][i]);
      assert ts[i + 1] == ts[1..][i];
    }
  }

  lemma {:induction false} TargetsMeaning(w: World, owner: map<string, string>, strict: bool, document: string,
                                          component: string, ts: seq<Target>, acc: Scan, q: string, c: string)
    ensures var r := ScanTargets(w, owner, strict, document, component, ts, acc);
            && (r.Ok? <==> !BadTargets(w, strict, ts))
            && (r.Err? ==> !r.error.Conflict?)
            && (r.Ok? ==>
                  (Has(r.value.claims, q, c) <==>
                     || Has(acc.claims, q, c)
                     || (c == component && q in w.files && !w.ignored(q) && q !in owner && Refers(ts, q))))
  {
    if ts != [] {
      var next := ScanTarget(w, owner, strict, document, component, ts[0], acc);
      if next.Ok? {
        TargetsMeaning(w, owner, strict, document, component, ts[1..], next.value, q, c);
      }
      RefersCons(ts, q);
      BadCons(w, strict, ts);
    }
  }

  /** A document of component c in paths refers to q. */
  ghost predicate ClaimedBy(w: World, frontier: map<string, string>, paths: seq<string>, q: string, c: string) {
    exists i :: 0 <= i < |paths| && paths[i] in frontier && frontier[paths[i]] == c && Edge(w, paths[i], q)
  }

  ghost predicate AnyFaulty(w: World, strict: bool, paths: seq<string>) {
    exists i :: 0 <= i < |paths| && Faulty(w, strict, paths[i])
  }

  lemma ClaimedByCons(w: World, frontier: map<string, string>, paths: seq<string>, q: string, c: string)
    requires paths != []
    ensures ClaimedBy(w, frontier, paths, q, c) <==>
            || (paths[0] in frontier && frontier[paths[0]] == c && Edge(w, paths[0], q))
            || ClaimedBy(w, frontier, paths[1..], q, c)
  {
    if ClaimedBy(w, frontier, paths, q, c) {
      var i :| 0 <= i < |paths| && paths[i] in frontier && frontier[paths[i]] == c && Edge(w, paths[i], q);
      if i > 0 { assert paths[1..][i - 1] == paths[i]; }
    }
    if ClaimedBy(w, frontier, paths[1..], q, c) {
      var i :| 0 <= i < |paths[1..]| && paths[1..][i] in frontier && frontier[paths[1..][i]] == c
               && Edge(w, paths[1..][i], q);
      assert paths[i + 1] == paths[1..][i];
    }
  }

  lemma AnyFaultyCons(w: World, strict: bool, paths: seq<string>)
    requires paths != []
    ensures AnyFaulty(w, strict, paths) <==> Faulty(w, strict, paths[0]) || AnyFaulty(w, strict, paths[1..])
  {
    if AnyFaulty(w, strict, paths) {
      var i :| 0 <= i < |paths| && Faulty(w, strict, paths[i]);
      if i > 0 { assert paths[1..][i - 1] == paths[i]; }
    }
    if AnyFaulty(w, strict, paths[1..]) {
      var i :| 0 <= i < |paths[1..]| && Faulty(w, strict, paths[1..][i]);
      assert paths[i + 1] == paths[1..][i];
    }
  }

  lemma {:induction false} PathsMeaning(w: World, owner: map<string, string>, strict: bool,
                                        frontier: map<string, string>, paths: seq<string>, acc: Scan,
                                        q: string, c: string)
    requires forall p :: p in paths ==> p in frontier
    ensures var r := ScanPaths(w, owner, strict, frontier, paths, acc);
            && (r.Ok? <==> !AnyFaulty(w, strict, paths))
            && (r.Err? ==> !r.error.Conflict?)
            && (r.Ok? ==>
                  (Has(r.value.claims, q, c) <==>
                     Has(acc.claims, q, c) || (q !in owner && ClaimedBy(w, frontier, paths, q, c))))
  {
    if paths != [] {
      var p := paths[0];
      var next := ScanDocument(w, owner, strict, p, frontier[p], acc);
      if w.isMarkdown(p) && w.targets(p).Some? {
        TargetsMeaning(w, owner, strict, p, frontier[p], w.targets(p).value, acc, q, c);
      }
      if next.Ok? {
        PathsMeaning(w, owner, strict, frontier, paths[1..], next.value, q, c);
      }
      ClaimedByCons(w, frontier, paths, q, c);
      AnyFaultyCons(w, strict, paths);
    }
  }

  lemma {:induction false} SettleMeaning(claims: Claims, refs: seq<string>, next: map<string, string>)
    requires forall r :: r in refs ==> r in claims
    ensures match Settle(claims, refs, next)
            case Ok(m) =>
              && (forall r :: r in refs ==> |UniqueSorted(claims[r])| <= 1)
              && (forall q :: q in m <==> q in refs || q in next)
              && (forall q :: q in refs ==> m[q] == claims[q][0])
              && (forall q :: q in next && q !in refs ==> m[q] == next[q])
            case Err(e) =>
              && e.Conflict? && e.path in refs && e.components == UniqueSorted(claims[e.path])
              && |e.components| > 1
  {
    if refs != [] && |UniqueSorted(claims[refs[0]])| <= 1 {
      SettleMeaning(claims, refs[1..], next[refs[0] := claims[refs[0]][0]]);
      assert forall q :: q in refs <==> q == refs[0] || q in refs[1..];
    }
  }

  /** Document p of the frontier claims the unowned file q. */
  ghost predicate Claimant(w: World, owner: map<string, string>, frontier: map<string, string>, p: string, q: string) {
    p in frontier && q !in owner && Edge(w, p, q)
  }

  ghost predicate FaultyFrontier(w: World, strict: bool, frontier: map<string, string>) {
    exists p :: p in frontier && Faulty(w, strict, p)
  }

  lemma FaultyAsSet(w: World, strict: bool, frontier: map<string, string>, paths: seq<string>)
    requires forall p :: p in paths <==> p in frontier
    ensures AnyFaulty(w, strict, paths) <==> FaultyFrontier(w, strict, frontier)
  {
    if FaultyFrontier(w, strict, frontier) {
      var p :| p in frontier && Faulty(w, strict, p);
      assert p in paths;
      var i :| 0 <= i < |paths| && paths[i] == p;
    }
    if AnyFaulty(w, strict, paths) {
      var i :| 0 <= i < |paths| && Faulty(w, strict, paths[i]);
      assert paths[i] in paths;
    }
  }

  lemma ClaimantAsSet(w: World, owner: map<string, string>, frontier: map<string, string>, paths: seq<string>,
                      q: string, c: string)
    requires forall p :: p in paths <==> p in frontier
    ensures q !in owner && ClaimedBy(w, frontier, paths, q, c) <==>
            exists p :: Claimant(w, owner, frontier, p, q) && frontier[p] == c
  {
    if q !in owner && ClaimedBy(w, frontier, paths, q, c) {
      var i :| 0 <= i < |paths| && paths[i] in frontier && frontier[paths[i]] == c && Edge(w, paths[i], q);
      assert Claimant(w, owner, frontier, paths[i], q) && frontier[paths[i]] == c;
    }
    if p :| Claimant(w, owner, frontier, p, q) && frontier[p] == c {
      assert p in paths;
      var i :| 0 <= i < |paths| && paths[i] == p;
      assert ClaimedBy(w, frontier, paths, q, c);
    }
  }

  lemma NextIsClaims(w: World, owner: map<string, string>, frontier: map<string, string>, claims: Claims,
                     next: map<string, string>)
    requires forall q, c :: Has(claims, q, c) <==> exists p :: Claimant(w, owner, frontier, p, q) && frontier[p] == c
    requires forall q :: q in next <==> q in claims
    requires forall q :: q in claims ==> next[q] == claims[q][0] && |UniqueSorted(claims[q])| <= 1
    ensures forall q :: q in next <==> exists p :: Claimant(w, owner, frontier, p, q)
    ensures forall p, q :: Claimant(w, owner, frontier, p, q) ==> q in next && next[q] == frontier[p]
  {
    forall p, q | Claimant(w, owner, frontier, p, q) ensures q in next && next[q] == frontier[p] {
      assert Has(claims, q, frontier[p]);
      SingleClaim(claims[q]);
      ListingMembers(Elements(claims[q]));
      assert frontier[p] in UniqueSorted(claims[q]);
    }
    forall q | q in next ensures exists p :: Claimant(w, owner, frontier, p, q) {
      assert Has(claims, q, claims[q][0]);
    }
  }

  lemma ConflictIsClaims(w: World, owner: map<string, string>, frontier: map<string, string>, claims: Claims,
                         e: DependencyError)
    requires forall q, c :: Has(claims, q, c) <==> exists p :: Claimant(w, owner, frontier, p, q) && frontier[p] == c
    requires e.Conflict? && e.path in claims && e.components == UniqueSorted(claims[e.path]) && |e.components| > 1
    ensures Distinct(e.components)
    ensures forall c :: c in e.components <==>
              exists p :: Claimant(w, owner, frontier, p, e.path) && frontier[p] == c
  {
    ListingMembers(Elements(claims[e.path]));
    ListingLists(Elements(claims[e.path]));
    StrictIsDistinct(e.components);
    assert forall c :: c in e.components <==> Has(claims, e.path, c);
  }

  /** What a wave yields, in terms of references alone. */
  lemma WaveMeaning(w: World, owner: map<string, string>, strict: bool, frontier: map<string, string>,
                    warnings: set<string>)
    ensures match Wave(w, owner, strict, frontier, warnings)
            case Ok((next, _)) =>
              && !FaultyFrontier(w, strict, frontier)
              && (forall q :: q in next <==> exists p :: Claimant(w, owner, frontier, p, q))
              && (forall p, q :: Claimant(w, owner, frontier, p, q) ==> q in next && next[q] == frontier[p])
            case Err(e) =>
              if e.Conflict? then
                && !FaultyFrontier(w, strict, frontier)
                && |e.components| > 1 && Distinct(e.components)
                && forall c :: c in e.components <==>
                     exists p :: Claimant(w, owner, frontier, p, e.path) && frontier[p] == c
              else FaultyFrontier(w, strict, frontier)
  {
    var paths := Listing(frontier.Keys);
    ListingMembers(frontier.Keys);
    var scan := ScanPaths(w, owner, strict, frontier, paths, Scan(map[], warnings));
    PathsMeaning(w, owner, strict, frontier, paths, Scan(map[], warnings), "", "");
    FaultyAsSet(w, strict, frontier, paths);
    if scan.Ok? {
      var claims := scan.value.claims;
      var refs := Listing(claims.Keys);
      ListingMembers(claims.Keys);
      SettleMeaning(claims, refs, map[]);
      forall q, c ensures Has(claims, q, c) <==> exists p :: Claimant(w, owner, frontier, p, q) && frontier[p] == c {
        PathsMeaning(w, owner, strict, frontier, paths, Scan(map[], warnings), q, c);
        ClaimantAsSet(w, owner, frontier, paths, q, c);
      }
      var settled := Settle(claims, refs, map[]);
      match settled
      case Ok(next) => NextIsClaims(w, owner, frontier, claims, next);
      case Err(e) => ConflictIsClaims(w, owner, frontier, claims, e);
    }
  }

  lemma WaveFinds(w: World, owner: map<string, string>, strict: bool, frontier: map<string, string>,
                  warnings: set<string>)
    requires Wave(w, owner, strict, frontier, warnings).Ok?
    ensures Wave(w, owner, strict, frontier, warnings).value.0.Keys <= w.files - owner.Keys
  {
    WaveMeaning(w, owner, strict, frontier, warnings);
  }

  lemma SubsetCount<T>(a: set<T>, b: set<T>)
    requires a <= b
    ensures |a| <= |b|
  {
    assert b == a + (b - a);
  }

  lemma FewerLeft(files: set<string>, owner: map<string, string>, next: map<string, string>)
    requires next.Keys <= files - owner.Keys
    ensures if next == map[] then (owner + next) == owner
            else |files - (owner + next).Keys| < |files - owner.Keys|
  {
    if next != map[] {
      var less, all := files - (owner + next).Keys, files - owner.Keys;
      var q :| q in next.Keys;
      assert q in all && q !in less && less <= all - {q};
      SubsetCount(less, all - {q});
    }
  }

  /** The unowned files decrease with every wave that finds something. */
  lemma Shrinks(w: World, owner: map<string, string>, strict: bool, frontier: map<string, string>,
                warnings: set<string>)
    requires Wave(w, owner, strict, frontier, warnings).Ok?
    ensures var next := Wave(w, owner, strict, frontier, warnings).value.0;
            if next == map[] then (owner + next) == owner
            else |w.files - (owner + next).Keys| < |w.files - owner.Keys|
  {
    WaveFinds(w, owner, strict, frontier, warnings);
    FewerLeft(w.files, owner, Wave(w, owner, strict, frontier, warnings).value.0);
  }

  /** Discovery from a frontier on: wave after wave until nothing new is found. */
  ghost function Closure(w: World, owner: map<string, string>, strict: bool, frontier: map<string, string>,
                         warnings: set<string>): Result<(map<string, string>, set<string>), DependencyError>
    decreases |w.files - owner.Keys|, |frontier|
  {
    if frontier == map[] then Ok((owner, warnings))
    else
      match Wave(w, owner, strict, frontier, warnings)
      case Err(e) => Err(e)
      case Ok((next, more)) =>
        Shrinks(w, owner, strict, frontier, warnings);
        Closure(w, owner + next, strict, next, more)
  }

  ghost predicate Link(w: World, c: seq<string>, i: nat)
    requires i + 1 < |c|
  {
    Edge(w, c[i], c[i + 1])
  }

  /** A chain of references from an initially owned document. */
  ghost predicate IsChain(w: World, init: map<string, string>, c: seq<string>) {
    c != [] && c[0] in init && forall i :: 0 <= i < |c| - 1 ==> Link(w, c, i)
  }

  function End(c: seq<string>): string
    requires c != []
  {
    c[|c| - 1]
  }

  /** No chain to the same file is shorter. */
  ghost predicate Shortest(w: World, init: map<string, string>, c: seq<string>) {
    IsChain(w, init, c) && forall d :: IsChain(w, init, d) && End(d) == End(c) ==> |c| <= |d|
  }

  /** A chain of at most n + 1 documents ends at q. */
  ghost predicate Within(w: World, init: map<string, string>, n: int, q: string) {
    exists c :: IsChain(w, init, c) && |c| <= n + 1 && End(c) == q
  }

  ghost predicate Reachable(w: World, init: map<string, string>, q: string) {
    exists c :: IsChain(w, init, c) && End(c) == q
  }

  lemma ExtendChain(w: World, init: map<string, string>, c: seq<string>, q: string)
    requires IsChain(w, init, c) && Edge(w, End(c), q)
    ensures IsChain(w, init, c + [q]) && End(c + [q]) == q
  {
    var d := c + [q];
    forall i | 0 <= i < |d| - 1 ensures Link(w, d, i) {
      if i < |c| - 1 { assert Link(w, c, i) && d[i] == c[i] && d[i + 1] == c[i + 1]; }
    }
  }

  lemma CutChain(w: World, init: map<string, string>, c: seq<string>)
    requires IsChain(w, init, c) && |c| > 1
    ensures IsChain(w, init, c[..|c| - 1]) && Edge(w, End(c[..|c| - 1]), End(c))
    ensures Shortest(w, init, c) ==> Shortest(w, init, c[..|c| - 1])
  {
    var d := c[..|c| - 1];
    forall i | 0 <= i < |d| - 1 ensures Link(w, d, i) {
      assert Link(w, c, i) && d[i] == c[i] && d[i + 1] == c[i + 1];
    }
    assert Link(w, c, |c| - 2);
    if Shortest(w, init, c) {
      forall e | IsChain(w, init, e) && End(e) == End(d) ensures |d| <= |e| {
        ExtendChain(w, init, e, End(c));
      }
    }
  }

  /** The owned files are those that some chain of at most n + 1 documents reaches. */
  ghost predicate Owned(w: World, init: map<string, string>, n: int, owner: map<string, string>) {
    forall q :: q in owner <==> Within(w, init, n, q)
  }

  /** The frontier is what only chains of n + 1 documents reach. */
  ghost predicate Newest(w: World, init: map<string, string>, n: int, frontier: map<string, string>) {
    forall q :: q in frontier <==> Within(w, init, n, q) && !Within(w, init, n - 1, q)
  }

  /** Every shortest chain of at most n + 1 documents hands its component to its end. */
  ghost predicate Credited(w: World, init: map<string, string>, n: int, owner: map<string, string>) {
    forall c :: Shortest(w, init, c) && |c| <= n + 1 ==> End(c) in owner && owner[End(c)] == init[c[0]]
  }

  /** Where discovery stands after n waves. */
  ghost predicate Stage(w: World, init: map<string, string>, n: nat, owner: map<string, string>,
                        frontier: map<string, string>)
  {
    && Owned(w, init, n, owner) && Newest(w, init, n, frontier) && Credited(w, init, n, owner)
    && (forall q :: q in frontier ==> q in owner && frontier[q] == owner[q])
  }

  lemma FirstStage(w: World, init: map<string, string>)
    ensures Stage(w, init, 0, init, init)
  {
    forall q ensures q in init <==> Within(w, init, 0, q) {
      if q in init { assert IsChain(w, init, [q]) && End([q]) == q; }
    }
    forall q ensures !Within(w, init, -1, q) {}
    forall c | Shortest(w, init, c) && |c| <= 1 ensures End(c) in init && init[End(c)] == init[c[0]] {}
  }

  lemma ChainWithin(w: World, init: map<string, string>, n: int, c: seq<string>)
    requires IsChain(w, init, c)
    ensures |c| <= n + 1 ==> Within(w, init, n, End(c))
  {
  }

  lemma StepWithin(w: World, init: map<string, string>, n: int, p: string, q: string)
    requires Edge(w, p, q)
    ensures Within(w, init, n, p) ==> Within(w, init, n + 1, q)
  {
    if Within(w, init, n, p) {
      var c :| IsChain(w, init, c) && |c| <= n + 1 && End(c) == p;
      ExtendChain(w, init, c, q);
    }
  }

  lemma ShortestWithin(w: World, init: map<string, string>, n: int, c: seq<string>)
    requires Shortest(w, init, c)
    ensures Within(w, init, n, End(c)) <==> |c| <= n + 1
  {
    ChainWithin(w, init, n, c);
  }

  /** A file reached in one more step is referred to by the file before it. */
  lemma WithinBack(w: World, init: map<string, string>, n: nat, q: string) returns (p: string)
    requires Within(w, init, n + 1, q) && !Within(w, init, n, q)
    ensures Within(w, init, n, p) && !Within(w, init, n - 1, p) && Edge(w, p, q)
  {
    var c :| IsChain(w, init, c) && |c| <= n + 2 && End(c) == q;
    ChainWithin(w, init, n, c);
    CutChain(w, init, c);
    p := End(c[..|c| - 1]);
    ChainWithin(w, init, n, c[..|c| - 1]);
    StepWithin(w, init, n - 1, p, q);
  }

  lemma NextWithin(w: World, init: map<string, string>, n: nat, owner: map<string, string>,
                   frontier: map<string, string>, next: map<string, string>, q: string)
    requires Stage(w, init, n, owner, frontier)
    requires forall x :: x in next <==> exists p :: Claimant(w, owner, frontier, p, x)
    ensures Within(w, init, n + 1, q) <==> q in owner || q in next
    ensures q in next <==> Within(w, init, n + 1, q) && !Within(w, init, n, q)
  {
    if q in next {
      var p :| Claimant(w, owner, frontier, p, q);
      StepWithin(w, init, n, p, q);
    }
    if Within(w, init, n + 1, q) && !Within(w, init, n, q) {
      var p := WithinBack(w, init, n, q);
      assert Claimant(w, owner, frontier, p, q);
    }
    if Within(w, init, n, q) {
      var c :| IsChain(w, init, c) && |c| <= n + 1 && End(c) == q;
      ChainWithin(w, init, n + 1, c);
    }
  }

  /** A shortest chain of n + 2 documents passes through the frontier of wave n. */
  lemma ShortestExtends(w: World, init: map<string, string>, n: nat, owner: map<string, string>,
                        frontier: map<string, string>, c: seq<string>)
    requires Stage(w, init, n, owner, frontier) && Shortest(w, init, c) && |c| == n + 2
    ensures var p := End(c[..|c| - 1]);
            Claimant(w, owner, frontier, p, End(c)) && frontier[p] == init[c[0]]
  {
    CutChain(w, init, c);
    var d := c[..|c| - 1];
    ShortestWithin(w, init, n, d);
    ShortestWithin(w, init, n - 1, d);
    ShortestWithin(w, init, n, c);
  }

  lemma NextShortest(w: World, init: map<string, string>, n: nat, owner: map<string, string>,
                     frontier: map<string, string>, next: map<string, string>, c: seq<string>)
    requires Stage(w, init, n, owner, frontier)
    requires forall p, q :: Claimant(w, owner, frontier, p, q) ==> q in next && next[q] == frontier[p]
    requires next.Keys !! owner.Keys
    requires Shortest(w, init, c) && |c| <= n + 2
    ensures End(c) in owner + next && (owner + next)[End(c)] == init[c[0]]
  {
    if |c| <= n + 1 {
      assert End(c) in owner.Keys && End(c) !in next.Keys;
    } else {
      ShortestExtends(w, init, n, owner, frontier, c);
    }
  }

  lemma NextOwned(w: World, init: map<string, string>, n: nat, owner: map<string, string>,
                  frontier: map<string, string>, next: map<string, string>)
    requires Stage(w, init, n, owner, frontier)
    requires forall x :: x in next <==> exists p :: Claimant(w, owner, frontier, p, x)
    ensures Owned(w, init, n + 1, owner + next) && Newest(w, init, n + 1, next)
  {
    forall q
      ensures q in owner + next <==> Within(w, init, n + 1, q)
      ensures q in next <==> Within(w, init, n + 1, q) && !Within(w, init, n, q)
    {
      NextWithin(w, init, n, owner, frontier, next, q);
    }
  }

  lemma NextCredited(w: World, init: map<string, string>, n: nat, owner: map<string, string>,
                     frontier: map<string, string>, next: map<string, string>)
    requires Stage(w, init, n, owner, frontier)
    requires forall x :: x in next <==> exists p :: Claimant(w, owner, frontier, p, x)
    requires forall p, q :: Claimant(w, owner, frontier, p, q) ==> q in next && next[q] == frontier[p]
    ensures Credited(w, init, n + 1, owner + next)
  {
    forall c | Shortest(w, init, c) && |c| <= n + 2
      ensures End(c) in owner + next && (owner + next)[End(c)] == init[c[0]]
    {
      NextShortest(w, init, n, owner, frontier, next, c);
    }
  }

  lemma NextStage(w: World, init: map<string, string>, n: nat, owner: map<string, string>,
                  frontier: map<string, string>, next: map<string, string>)
    requires Stage(w, init, n, owner, frontier)
    requires forall x :: x in next <==> exists p :: Claimant(w, owner, frontier, p, x)
    requires forall p, q :: Claimant(w, owner, frontier, p, q) ==> q in next && next[q] == frontier[p]
    ensures Stage(w, init, n + 1, owner + next, next)
  {
    NextOwned(w, init, n, owner, frontier, next);
    NextCredited(w, init, n, owner, frontier, next);
  }

  /** Two shortest chains to q start in different components. */
  ghost predicate Tie(w: World, init: map<string, string>, q: string) {
    exists c, d :: Shortest(w, init, c) && Shortest(w, init, d) && End(c) == End(d) == q
                   && init[c[0]] != init[d[0]]
  }

  /** The outcome of discovery in terms of chains: on success exactly the reachable files are
      owned, each by the component at the start of every shortest chain to it; a conflict names
      a file with a tie, and exactly the components that tie; any other error is the fault of a
      reachable document. */
  ghost predicate Explained(w: World, init: map<string, string>, strict: bool,
                            r: Result<(map<string, string>, set<string>), DependencyError>)
  {
    match r
    case Ok((owner, _)) =>
      && (forall q :: q in owner <==> Reachable(w, init, q))
      && (forall c :: Shortest(w, init, c) ==> End(c) in owner && owner[End(c)] == init[c[0]])
      && (forall q :: Reachable(w, init, q) ==> !Faulty(w, strict, q))
    case Err(e) =>
      if e.Conflict? then
        && |e.components| > 1 && Distinct(e.components)
        && forall c :: c in e.components <==>
             exists d :: Shortest(w, init, d) && End(d) == e.path && init[d[0]] == c
      else exists p :: Reachable(w, init, p) && Faulty(w, strict, p)
  }

  lemma {:induction false} ChainStays(w: World, init: map<string, string>, n: nat, owner: map<string, string>,
                                      c: seq<string>)
    requires Stage(w, init, n, owner, map[]) && IsChain(w, init, c)
    ensures Within(w, init, n, End(c))
    decreases |c|
  {
    if |c| > n + 1 {
      CutChain(w, init, c);
      ChainStays(w, init, n, owner, c[..|c| - 1]);
      var p := End(c[..|c| - 1]);
      var d :| IsChain(w, init, d) && |d| <= n && End(d) == p;
      ExtendChain(w, init, d, End(c));
    }
  }

  /** At the end no chain leads further. */
  lemma AllReached(w: World, init: map<string, string>, n: nat, owner: map<string, string>)
    requires Stage(w, init, n, owner, map[])
    ensures forall c :: IsChain(w, init, c) ==> End(c) in owner
    ensures forall c :: Shortest(w, init, c) ==> |c| <= n + 1
  {
    forall c | IsChain(w, init, c) ensures End(c) in owner {
      ChainStays(w, init, n, owner, c);
    }
    forall c | Shortest(w, init, c) ensures |c| <= n + 1 {
      ChainStays(w, init, n, owner, c);
      var d :| IsChain(w, init, d) && |d| <= n + 1 && End(d) == End(c);
    }
  }

  lemma {:induction false} ShortestExists(w: World, init: map<string, string>, c: seq<string>) returns (d: seq<string>)
    requires IsChain(w, init, c)
    ensures Shortest(w, init, d) && End(d) == End(c)
    decreases |c|
  {
    if Shortest(w, init, c) {
      d := c;
    } else {
      var e :| IsChain(w, init, e) && End(e) == End(c) && |e| < |c|;
      d := ShortestExists(w, init, e);
    }
  }

  /** A claimant of wave n yields a shortest chain to the claimed file. */
  lemma ClaimantChain(w: World, init: map<string, string>, n: nat, owner: map<string, string>,
                      frontier: map<string, string>, p: string, q: string)
    returns (c: seq<string>)
    requires Stage(w, init, n, owner, frontier) && Claimant(w, owner, frontier, p, q)
    ensures Shortest(w, init, c) && End(c) == q && init[c[0]] == frontier[p]
  {
    assert Within(w, init, n, p);
    var d :| IsChain(w, init, d) && |d| <= n + 1 && End(d) == p;
    var e := ShortestExists(w, init, d);
    assert |e| <= n + 1;
    c := e + [q];
    ExtendChain(w, init, e, q);
    forall f | IsChain(w, init, f) && End(f) == q ensures |c| <= |f| {
      assert !Within(w, init, n, q);
    }
  }

  /** Every shortest chain to a file claimed in wave n comes from a claimant of that wave. */
  lemma ChainClaimant(w: World, init: map<string, string>, n: nat, owner: map<string, string>,
                      frontier: map<string, string>, p: string, d: seq<string>)
    requires Stage(w, init, n, owner, frontier) && Shortest(w, init, d) && Claimant(w, owner, frontier, p, End(d))
    ensures |d| == n + 2
    ensures Claimant(w, owner, frontier, End(d[..|d| - 1]), End(d)) && frontier[End(d[..|d| - 1])] == init[d[0]]
  {
    var q := End(d);
    assert Within(w, init, n, p) && !Within(w, init, n, q);
    StepWithin(w, init, n, p, q);
    ShortestWithin(w, init, n + 1, d);
    ShortestWithin(w, init, n, d);
    ShortestExtends(w, init, n, owner, frontier, d);
  }

  /** What stops wave n stops discovery for the reason given. */
  lemma ErrorExplained(w: World, init: map<string, string>, strict: bool, n: nat, owner: map<string, string>,
                       frontier: map<string, string>, e: DependencyError)
    requires Stage(w, init, n, owner, frontier)
    requires if e.Conflict? then |e.components| > 1 && Distinct(e.components)
               && forall c :: c in e.components <==>
                    exists p :: Claimant(w, owner, frontier, p, e.path) && frontier[p] == c
             else FaultyFrontier(w, strict, frontier)
    ensures Explained(w, init, strict, Err(e))
  {
    if e.Conflict? {
      forall c | c in e.components
        ensures exists d :: Shortest(w, init, d) && End(d) == e.path && init[d[0]] == c
      {
        var p :| Claimant(w, owner, frontier, p, e.path) && frontier[p] == c;
        var d := ClaimantChain(w, init, n, owner, frontier, p, e.path);
      }
      var c0 := e.components[0];
      assert c0 in e.components;
      var p0 :| Claimant(w, owner, frontier, p0, e.path) && frontier[p0] == c0;
      forall d | Shortest(w, init, d) && End(d) == e.path ensures init[d[0]] in e.components {
        ChainClaimant(w, init, n, owner, frontier, p0, d);
      }
    } else {
      var p :| p in frontier && Faulty(w, strict, p);
      var c :| IsChain(w, init, c) && |c| <= n + 1 && End(c) == p;
    }
  }

  lemma {:induction false} ClosureExplained(w: World, init: map<string, string>, strict: bool, n: nat,
                                            owner: map<string, string>, frontier: map<string, string>,
                                            warnings: set<string>)
    requires Stage(w, init, n, owner, frontier)
    requires forall q :: q in owner && q !in frontier ==> !Faulty(w, strict, q)
    ensures Explained(w, init, strict, Closure(w, owner, strict, frontier, warnings))
    decreases |w.files - owner.Keys|, |frontier|
  {
    if frontier == map[] {
      AllReached(w, init, n, owner);
    } else {
      WaveMeaning(w, owner, strict, frontier, warnings);
      match Wave(w, owner, strict, frontier, warnings)
      case Ok((next, more)) =>
        Shrinks(w, owner, strict, frontier, warnings);
        NextStage(w, init, n, owner, frontier, next);
        ClosureExplained(w, init, strict, n + 1, owner + next, next, more);
      case Err(e) => ErrorExplained(w, init, strict, n, owner, frontier, e);
    }
  }

  ghost predicate AllSound(w: World, init: map<string, string>, strict: bool) {
    forall q :: Reachable(w, init, q) ==> !Faulty(w, strict, q)
  }

  lemma OneOwner(w: World, init: map<string, string>, strict: bool,
                 r: Result<(map<string, string>, set<string>), DependencyError>, q: string)
    requires r.Ok? && Explained(w, init, strict, r)
    ensures !Tie(w, init, q)
  {
  }

  lemma StoppedByTie(w: World, init: map<string, string>, strict: bool,
                     r: Result<(map<string, string>, set<string>), DependencyError>)
    requires r.Err? && Explained(w, init, strict, r)
    ensures r.error.Conflict? ==> Tie(w, init, r.error.path)
    ensures !r.error.Conflict? ==> !AllSound(w, init, strict)
  {
    if r.error.Conflict? {
      var a, b := r.error.components[0], r.error.components[1];
      assert a in r.error.components && b in r.error.components && a != b;
      var c :| Shortest(w, init, c) && End(c) == r.error.path && init[c[0]] == a;
      var d :| Shortest(w, init, d) && End(d) == r.error.path && init[d[0]] == b;
    }
  }

  /** Discovery succeeds exactly when no reachable document is faulty and no file has a tie; and
      without faults a tie is all that can stop it. */
  lemma DiscoverySucceedsExactly(w: World, init: map<string, string>, strict: bool)
    ensures Explained(w, init, strict, Closure(w, init, strict, init, {}))
    ensures Closure(w, init, strict, init, {}).Ok? <==>
            AllSound(w, init, strict) && forall q :: !Tie(w, init, q)
    ensures AllSound(w, init, strict) ==>
              (Closure(w, init, strict, init, {}).Err? <==> exists q :: Tie(w, init, q))
  {
    FirstStage(w, init);
    ClosureExplained(w, init, strict, 0, init, init, {});
    var r := Closure(w, init, strict, init, {});
    if r.Ok? {
      forall q ensures !Tie(w, init, q) { OneOwner(w, init, strict, r, q); }
    } else {
      StoppedByTie(w, init, strict, r);
    }
  }

  ghost predicate ClosedUnder(w: World, xs: iset<string>) {
    forall p, q :: p in xs && Edge(w, p, q) ==> q in xs
  }

  lemma InitialKept(w: World, init: map<string, string>, strict: bool,
                    r: Result<(map<string, string>, set<string>), DependencyError>, p: string)
    requires r.Ok? && Explained(w, init, strict, r) && p in init
    ensures p in r.value.0 && r.value.0[p] == init[p]
  {
    assert IsChain(w, init, [p]) && End([p]) == p && Shortest(w, init, [p]);
  }

  lemma EdgeOwned(w: World, init: map<string, string>, strict: bool,
                  r: Result<(map<string, string>, set<string>), DependencyError>, p: string, q: string)
    requires r.Ok? && Explained(w, init, strict, r) && p in r.value.0 && Edge(w, p, q)
    ensures q in r.value.0
  {
    assert Reachable(w, init, p);
    var c :| IsChain(w, init, c) && End(c) == p;
    ExtendChain(w, init, c, q);
    assert Reachable(w, init, q);
  }

  lemma {:induction false} ChainInside(w: World, init: map<string, string>, closed: iset<string>, c: seq<string>)
    requires IsChain(w, init, c)
    requires forall p :: p in init ==> p in closed
    requires ClosedUnder(w, closed)
    ensures End(c) in closed
    decreases |c|
  {
    if |c| > 1 {
      CutChain(w, init, c);
      ChainInside(w, init, closed, c[..|c| - 1]);
    }
  }

  /** The owned files are the least set that contains the initial ones and every regular,
      non-ignored file that an owned document refers to; no initial file changes hands. */
  lemma LeastClosedSet(w: World, init: map<string, string>, strict: bool)
    requires Closure(w, init, strict, init, {}).Ok?
    ensures var owner := Closure(w, init, strict, init, {}).value.0;
            && (forall p :: p in init ==> p in owner && owner[p] == init[p])
            && ClosedUnder(w, iset p | p in owner)
            && forall closed: iset<string> ::
                 (forall p :: p in init ==> p in closed) && ClosedUnder(w, closed)
                 ==> forall p :: p in owner ==> p in closed
  {
    DiscoverySucceedsExactly(w, init, strict);
    var r := Closure(w, init, strict, init, {});
    forall p | p in init ensures p in r.value.0 && r.value.0[p] == init[p] {
      InitialKept(w, init, strict, r, p);
    }
    forall p, q | p in r.value.0 && Edge(w, p, q) ensures q in r.value.0 {
      EdgeOwned(w, init, strict, r, p, q);
    }
    forall closed: iset<string>, p |
      (forall x :: x in init ==> x in closed) && ClosedUnder(w, closed) && p in r.value.0
      ensures p in closed
    {
      var c :| IsChain(w, init, c) && End(c) == p;
      ChainInside(w, init, closed, c);
    }
  }

  ghost predicate TargetsWarn(w: World, p: string, ts: seq<Target>, m: string) {
    exists i :: && 0 <= i < |ts| && Dangling(w, ts[i])
                && w.describe(ts[i].raw, p, w.isDirectory(ts[i].path)) == m
  }

  /** Document p has a target that is neither a file nor ignored, described by m. */
  ghost predicate Warns(w: World, p: string, m: string) {
    w.isMarkdown(p) && w.targets(p).Some? && TargetsWarn(w, p, w.targets(p).value, m)
  }

  lemma TargetsWarnCons(w: World, p: string, ts: seq<Target>, m: string)
    requires ts != []
    ensures TargetsWarn(w, p, ts, m) <==>
            (Dangling(w, ts[0]) && Message(w, p, ts[0]) == m) || TargetsWarn(w, p, ts[1..], m)
  {
    if TargetsWarn(w, p, ts, m) {
      var i :| && 0 <= i < |ts| && Dangling(w, ts[i])
               && w.describe(ts[i].raw, p, w.isDirectory(ts[i].path)) == m;
      if i > 0 { assert ts[1..][i - 1] == ts[i]; }
    }
    if TargetsWarn(w, p, ts[1..], m) {
      var i :| && 0 <= i < |ts[1..]| && Dangling(w, ts[1..][i])
               && w.describe(ts[1..][i].raw, p, w.isDirectory(ts[1..][i].path)) == m;
      assert ts[i + 1] == ts[1..][i];
    }
  }

  lemma {:induction false} TargetWarnings(w: World, owner: map<string, string>, strict: bool, document: string,
                                          component: string, ts: seq<Target>, acc: Scan, m: string)
    ensures var r := ScanTargets(w, owner, strict, document, component, ts, acc);
            r.Ok? ==> (m in r.value.warnings <==> m in acc.warnings || TargetsWarn(w, document, ts, m))
  {
    if ts != [] {
      var next := ScanTarget(w, owner, strict, document, component, ts[0], acc);
      if next.Ok? {
        TargetWarnings(w, owner, strict, document, component, ts[1..], next.value, m);
      }
      TargetsWarnCons(w, document, ts, m);
    }
  }

  lemma {:induction false} PathWarnings(w: World, owner: map<string, string>, strict: bool,
                                        frontier: map<string, string>, paths: seq<string>, acc: Scan, m: string)
    requires forall p :: p in paths ==> p in frontier
    ensures var r := ScanPaths(w, owner, strict, frontier, paths, acc);
            r.Ok? ==> (m in r.value.warnings <==> m in acc.warnings || exists p :: p in paths && Warns(w, p, m))
  {
    if paths != [] {
      var p := paths[0];
      var next := ScanDocument(w, owner, strict, p, frontier[p], acc);
      if w.isMarkdown(p) && w.targets(p).Some? {
        TargetWarnings(w, owner, strict, p, frontier[p], w.targets(p).value, acc, m);
      }
      if next.Ok? {
        PathWarnings(w, owner, strict, frontier, paths[1..], next.value, m);
      }
      assert forall q :: q in paths <==> q == p || q in paths[1..];
    }
  }

  lemma WaveWarnings(w: World, owner: map<string, string>, strict: bool, frontier: map<string, string>,
                     warnings: set<string>, m: string)
    requires Wave(w, owner, strict, frontier, warnings).Ok?
    ensures m in Wave(w, owner, strict, frontier, warnings).value.1 <==>
            m in warnings || exists p :: p in frontier && Warns(w, p, m)
  {
    var paths := Listing(frontier.Keys);
    ListingMembers(frontier.Keys);
    PathWarnings(w, owner, strict, frontier, paths, Scan(map[], warnings), m);
  }

  /** What is scanned from a frontier on: the frontier and everything found later. */
  predicate Scanned(owner: map<string, string>, frontier: map<string, string>, after: map<string, string>, p: string) {
    p in after && (p in frontier || p !in owner)
  }

  lemma {:induction false} ClosureWarnings(w: World, owner: map<string, string>, strict: bool,
                                           frontier: map<string, string>, warnings: set<string>, m: string)
    requires forall p :: p in frontier ==> p in owner
    ensures var r := Closure(w, owner, strict, frontier, warnings);
            r.Ok? ==> && owner.Keys <= r.value.0.Keys
                      && (m in r.value.1 <==>
                            m in warnings || exists p :: Scanned(owner, frontier, r.value.0, p) && Warns(w, p, m))
    decreases |w.files - owner.Keys|, |frontier|
  {
    if frontier != map[] && Wave(w, owner, strict, frontier, warnings).Ok? {
      var (next, more) := Wave(w, owner, strict, frontier, warnings).value;
      Shrinks(w, owner, strict, frontier, warnings);
      WaveFinds(w, owner, strict, frontier, warnings);
      ClosureWarnings(w, owner + next, strict, next, more, m);
      WaveWarnings(w, owner, strict, frontier, warnings, m);
      var r := Closure(w, owner, strict, frontier, warnings);
      if r.Ok? {
        forall p ensures Scanned(owner, frontier, r.value.0, p) <==>
                         p in frontier || Scanned(owner + next, next, r.value.0, p) {}
      }
    }
  }

  lemma SoundDocument(w: World, p: string, m: string)
    ensures !Faulty(w, true, p) ==> !Warns(w, p, m)
  {
    if w.isMarkdown(p) && w.targets(p).Some? {
      var ts := w.targets(p).value;
      forall i | 0 <= i < |ts| ensures Dangling(w, ts[i]) ==> BadTarget(w, true, ts[i]) {}
    }
  }

  /** The warnings of a successful discovery are exactly the descriptions of the dangling targets
      of all owned documents; a strict discovery that succeeds has none. */
  lemma WarningsExactly(w: World, init: map<string, string>, strict: bool, m: string)
    requires Closure(w, init, strict, init, {}).Ok?
    ensures var (owner, warnings) := Closure(w, init, strict, init, {}).value;
            && (m in warnings <==> exists p :: p in owner && Warns(w, p, m))
            && (strict ==> m !in warnings)
  {
    ClosureWarnings(w, init, strict, init, {}, m);
    DiscoverySucceedsExactly(w, init, strict);
    var r := Closure(w, init, strict, init, {});
    forall p ensures p in r.value.0 ==> Scanned(init, init, r.value.0, p) {}
    forall p | p in r.value.0 ensures strict ==> !Warns(w, p, m) {
      assert Reachable(w, init, p);
      SoundDocument(w, p, m);
    }
  }

  /** The error e tells what is wrong with document p: it cannot be read, a target leaves the
      tree, or, in a strict discovery, a target names neither a file nor an ignored path. */
  ghost predicate Blames(w: World, strict: bool, p: string, e: DependencyError) {
    && w.isMarkdown(p)
    && match e
       case Unreadable(document) => document == p && w.targets(p).None?
       case BadReference(document, raw) =>
         document == p && w.targets(p).Some? && Escapes(raw) in w.targets(p).value
       case InvalidDependency(message) => strict && Warns(w, p, message)
       case _ => false
  }

  lemma {:induction false} TargetBlamed(w: World, owner: map<string, string>, strict: bool, document: string,
                                        component: string, all: seq<Target>, n: nat, acc: Scan)
    requires n <= |all| && w.isMarkdown(document) && w.targets(document) == Some(all)
    ensures var r := ScanTargets(w, owner, strict, document, component, all[n..], acc);
            r.Err? ==> Blames(w, strict, document, r.error)
    decreases |all| - n
  {
    if n < |all| {
      assert all[n..][0] == all[n] && all[n..][1..] == all[n + 1..];
      var next := ScanTarget(w, owner, strict, document, component, all[n], acc);
      if next.Ok? {
        TargetBlamed(w, owner, strict, document, component, all, n + 1, next.value);
      }
    }
  }

  lemma {:induction false} PathBlamed(w: World, owner: map<string, string>, strict: bool,
                                      frontier: map<string, string>, paths: seq<string>, acc: Scan)
    requires forall p :: p in paths ==> p in frontier
    ensures var r := ScanPaths(w, owner, strict, frontier, paths, acc);
            r.Err? ==> exists p :: p in frontier && Blames(w, strict, p, r.error)
  {
    if paths != [] {
      var p := paths[0];
      if w.isMarkdown(p) && w.targets(p).Some? {
        var all := w.targets(p).value;
        TargetBlamed(w, owner, strict, p, frontier[p], all, 0, acc);
        assert all[0..] == all;
      }
      var next := ScanDocument(w, owner, strict, p, frontier[p], acc);
      if next.Ok? {
        PathBlamed(w, owner, strict, frontier, paths[1..], next.value);
      } else {
        assert Blames(w, strict, p, next.error);
      }
    }
  }

  lemma {:induction false} WaveBlames(w: World, owner: map<string, string>, strict: bool,
                                      frontier: map<string, string>, warnings: set<string>)
    ensures var r := Wave(w, owner, strict, frontier, warnings);
            r.Err? && !r.error.Conflict? ==> exists p :: p in frontier && Blames(w, strict, p, r.error)
  {
    var paths := Listing(frontier.Keys);
    ListingMembers(frontier.Keys);
    PathBlamed(w, owner, strict, frontier, paths, Scan(map[], warnings));
    var scan := ScanPaths(w, owner, strict, frontier, paths, Scan(map[], warnings));
    if scan.Ok? {
      ListingMembers(scan.value.claims.Keys);
      SettleMeaning(scan.value.claims, Listing(scan.value.claims.Keys), map[]);
    }
  }

  lemma {:induction false} ReachesOn(w: World, init: map<string, string>, p: string, q: string)
    requires Reachable(w, init, p) && Edge(w, p, q)
    ensures Reachable(w, init, q)
  {
    var c :| IsChain(w, init, c) && End(c) == p;
    ExtendChain(w, init, c, q);
  }

  /** Any error but a conflict is the fault of a reachable document, which it names. */
  lemma {:induction false} ErrorBlames(w: World, init: map<string, string>, strict: bool,
                                       owner: map<string, string>, frontier: map<string, string>,
                                       warnings: set<string>)
    requires forall p :: p in frontier ==> Reachable(w, init, p)
    ensures var r := Closure(w, owner, strict, frontier, warnings);
            r.Err? && !r.error.Conflict? ==> exists p :: Reachable(w, init, p) && Blames(w, strict, p, r.error)
    decreases |w.files - owner.Keys|, |frontier|
  {
    if frontier != map[] {
      WaveBlames(w, owner, strict, frontier, warnings);
      var wave := Wave(w, owner, strict, frontier, warnings);
      if wave.Ok? {
        var (next, more) := wave.value;
        Shrinks(w, owner, strict, frontier, warnings);
        WaveMeaning(w, owner, strict, frontier, warnings);
        forall q | q in next ensures Reachable(w, init, q) {
          var p :| Claimant(w, owner, frontier, p, q);
          ReachesOn(w, init, p, q);
        }
        ErrorBlames(w, init, strict, owner + next, next, more);
      }
    }
  }

  /** From the start on. */
  lemma {:induction false} DiscoveryBlames(w: World, init: map<string, string>, strict: bool)
    ensures var r := Closure(w, init, strict, init, {});
            r.Err? && !r.error.Conflict? ==> exists p :: Reachable(w, init, p) && Blames(w, strict, p, r.error)
  {
    forall p | p in init ensures Reachable(w, init, p) {
      assert IsChain(w, init, [p]) && End([p]) == p;
    }
    ErrorBlames(w, init, strict, init, init, {});
  }
}
