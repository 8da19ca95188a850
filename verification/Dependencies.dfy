/** Dependency discovery (internal/pathplan/dependencies.go): files that owned Markdown
    documents refer to join the component whose documents reach them first. */
module Dependencies {
  import opened Prelude

  /** A local link or image target after resolution against its referrer. */
  datatype Target = Escapes(raw: string) | At(raw: string, path: string)

  /** The source tree as discovery sees it: its regular files, which names are Markdown, the
      local targets of each document (None when it cannot be read), the ignore rules, and the
      text of a diagnostic for a target, its document and whether the target is a directory. */
  datatype World = World(
    files: set<string>,
    isDirectory: string -> bool,
    isMarkdown: string -> bool,
    targets: string -> Option<seq<Target>>,
    ignored: string -> bool,
    describe: (string, string, bool) -> string)

  datatype DependencyError =
    | Unreadable(document: string)
    | BadReference(document: string, raw: string)
    | InvalidDependency(message: string)
    | Conflict(path: string, components: seq<string>)
    | PathsCollide

  /** The components that claim a path, in the order they were found. */
  type Claimants = s: seq<string> | s != [] witness [""]

  type Claims = map<string, Claimants>

  /** One pass over the frontier: who claims each unowned file, and the warnings so far. */
  datatype Scan = Scan(claims: Claims, warnings: set<string>)

  /** invalidDependencyMessage. */
  function Message(w: World, document: string, t: Target): string
    requires t.At?
  {
    w.describe(t.raw, document, w.isDirectory(t.path))
  }

  function Claim(claims: Claims, path: string, component: string): Claims {
    claims[path := (if path in claims then claims[path] else []) + [component]]
  }

  /** The treatment of one target of an owned document. */
  function ScanTarget(w: World, owner: map<string, string>, strict: bool, document: string,
                      component: string, t: Target, acc: Scan): Result<Scan, DependencyError>
  {
    if t.Escapes? then Err(BadReference(document, t.raw))
    else if w.ignored(t.path) then Ok(acc)
    else if t.path !in w.files then
      if strict then Err(InvalidDependency(Message(w, document, t)))
      else Ok(acc.(warnings := acc.warnings + {Message(w, document, t)}))
    else if t.path in owner then Ok(acc)
    else Ok(acc.(claims := Claim(acc.claims, t.path, component)))
  }

  function ScanTargets(w: World, owner: map<string, string>, strict: bool, document: string,
                       component: string, ts: seq<Target>, acc: Scan): Result<Scan, DependencyError>
  {
    if ts == [] then Ok(acc)
    else
      var next := ScanTarget(w, owner, strict, document, component, ts[0], acc);
      if next.Err? then next else ScanTargets(w, owner, strict, document, component, ts[1..], next.value)
  }

  function ScanDocument(w: World, owner: map<string, string>, strict: bool, document: string,
                        component: string, acc: Scan): Result<Scan, DependencyError>
  {
    if !w.isMarkdown(document) then Ok(acc)
    else match w.targets(document)
      case None => Err(Unreadable(document))
      case Some(ts) => ScanTargets(w, owner, strict, document, component, ts, acc)
  }

  function ScanPaths(w: World, owner: map<string, string>, strict: bool, frontier: map<string, string>,
                     paths: seq<string>, acc: Scan): Result<Scan, DependencyError>
    requires forall p :: p in paths ==> p in frontier
  {
    if paths == [] then Ok(acc)
    else
      var next := ScanDocument(w, owner, strict, paths[0], frontier[paths[0]], acc);
      if next.Err? then next else ScanPaths(w, owner, strict, frontier, paths[1..], next.value)
  }

  /** uniqueSorted: the distinct components in order. */
  ghost function UniqueSorted(components: seq<string>): seq<string> {
    Listing(Elements(components))
  }

  function Compact(s: seq<string>): seq<string> {
    if |s| <= 1 then s
    else if s[0] == s[1] then Compact(s[1..])
    else [s[0]] + Compact(s[1..])
  }

  lemma {:induction false} CompactSorted(s: seq<string>)
    requires Ascending(s)
    ensures Lists(Compact(s), Elements(s))
    ensures s != [] ==> Compact(s) != [] && Compact(s)[0] == s[0]
  {
    if |s| > 1 {
      CompactSorted(s[1..]);
      var rest := Compact(s[1..]);
      assert s == [s[0]] + s[1..];
      assert Elements(s) == {s[0]} + Elements(s[1..]);
      assert s[1] in Elements(s[1..]);
      if s[0] != s[1] {
        forall j | 0 <= j < |rest| ensures Lt(s[0], rest[j]) {
          LeRefl(rest[0]);
          if j > 0 { assert Lt(rest[0], rest[j]); }
          LtLe(s[0], s[1], rest[j]);
        }
        assert Elements([s[0]] + rest) == {s[0]} + Elements(rest);
      } else {
        assert Elements(s) == Elements(s[1..]);
      }
    }
  }

  method SortUnique(components: seq<string>) returns (unique: seq<string>)
    ensures unique == UniqueSorted(components)
  {
    unique := Compact(Sort(components));
    SortAscending(components);
    SortedMembers(components);
    CompactSorted(Sort(components));
    assert Elements(Sort(components)) == Elements(components);
    ListingLists(Elements(components));
    ListsUnique(unique, Listing(Elements(components)), Elements(components));
  }

  /** The claimed files in order: the first with two claimants is a conflict. */
  ghost function Settle(claims: Claims, refs: seq<string>, next: map<string, string>)
    : Result<map<string, string>, DependencyError>
    requires forall r :: r in refs ==> r in claims
  {
    if refs == [] then Ok(next)
    else
      var components := UniqueSorted(claims[refs[0]]);
      if |components| > 1 then Err(Conflict(refs[0], components))
      else
        assert claims[refs[0]][0] in Elements(claims[refs[0]]);
        Settle(claims, refs[1..], next[refs[0] := claims[refs[0]][0]])
  }

  /** discoverWave on the frontier, in terms of sorted order only. */
  ghost function Wave(w: World, owner: map<string, string>, strict: bool, frontier: map<string, string>,
                      warnings: set<string>): Result<(map<string, string>, set<string>), DependencyError>
  {
    ListingMembers(frontier.Keys);
    match ScanPaths(w, owner, strict, frontier, Listing(frontier.Keys), Scan(map[], warnings))
    case Err(e) => Err(e)
    case Ok(scan) =>
      ListingMembers(scan.claims.Keys);
      match Settle(scan.claims, Listing(scan.claims.Keys), map[])
      case Err(e) => Err(e)
      case Ok(next) => Ok((next, scan.warnings))
  }

  /** The targets of one document, one by one. */
  method ScanReferences(w: World, owner: map<string, string>, strict: bool, document: string,
                        component: string, ts: seq<Target>, start: Scan)
    returns (r: Result<Scan, DependencyError>)
    ensures r == ScanTargets(w, owner, strict, document, component, ts, start)
  {
    var acc := start;
    var i := 0;
    while i < |ts|
      invariant i <= |ts|
      invariant ScanTargets(w, owner, strict, document, component, ts, start)
                == ScanTargets(w, owner, strict, document, component, ts[i..], acc)
    {
      var t := ts[i];
      assert ts[i..][0] == t && ts[i..][1..] == ts[i + 1..];
      i := i + 1;
      if t.Escapes? {
        return Err(BadReference(document, t.raw));
      }
      if w.ignored(t.path) {
        continue;
      }
      if t.path !in w.files {
        if strict {
          return Err(InvalidDependency(Message(w, document, t)));
        }
        acc := acc.(warnings := acc.warnings + {Message(w, document, t)});
        continue;
      }
      if t.path in owner {
        continue;
      }
      acc := acc.(claims := Claim(acc.claims, t.path, component));
    }
    return Ok(acc);
  }

  /** The documents of the frontier in sorted order. */
  method CollectClaims(w: World, frontier: map<string, string>, owner: map<string, string>, strict: bool,
                       paths: seq<string>, warnings: set<string>)
    returns (r: Result<Scan, DependencyError>)
    requires forall p :: p in paths ==> p in frontier
    ensures r == ScanPaths(w, owner, strict, frontier, paths, Scan(map[], warnings))
  {
    var acc := Scan(map[], warnings);
    var i := 0;
    while i < |paths|
      invariant i <= |paths|
      invariant ScanPaths(w, owner, strict, frontier, paths, Scan(map[], warnings))
                == ScanPaths(w, owner, strict, frontier, paths[i..], acc)
    {
      var p := paths[i];
      assert paths[i..][0] == p && paths[i..][1..] == paths[i + 1..];
      if w.isMarkdown(p) {
        var content := w.targets(p);
        if content.None? {
          return Err(Unreadable(p));
        }
        var scanned := ScanReferences(w, owner, strict, p, frontier[p], content.value, acc);
        if scanned.Err? {
          return Err(scanned.error);
        }
        acc := scanned.value;
      }
      i := i + 1;
    }
    return Ok(acc);
  }

  lemma SingleClaim(components: seq<string>)
    requires components != [] && |UniqueSorted(components)| <= 1
    ensures UniqueSorted(components) == [components[0]]
  {
    ListingMembers(Elements(components));
    assert components[0] in UniqueSorted(components);
  }

  /** The claimed files in sorted order. */
  method SettleClaims(claims: Claims, refs: seq<string>) returns (r: Result<map<string, string>, DependencyError>)
    requires forall x :: x in refs ==> x in claims
    ensures r == Settle(claims, refs, map[])
  {
    var next: map<string, string> := map[];
    var i := 0;
    while i < |refs|
      invariant i <= |refs|
      invariant Settle(claims, refs, map[]) == Settle(claims, refs[i..], next)
    {
      assert refs[i..][0] == refs[i] && refs[i..][1..] == refs[i + 1..];
      var components := SortUnique(claims[refs[i]]);
      if |components| > 1 {
        return Err(Conflict(refs[i], components));
      }
      SingleClaim(claims[refs[i]]);
      next := next[refs[i] := components[0]];
      i := i + 1;
    }
    return Ok(next);
  }

  /** discoverWave. */
  method DiscoverWave(w: World, frontier: map<string, string>, owner: map<string, string>, strict: bool,
                      warnings: set<string>)
    returns (r: Result<(map<string, string>, set<string>), DependencyError>)
    ensures r == Wave(w, owner, strict, frontier, warnings)
  {
    var paths := SortedKeys(frontier.Keys);
    ListingMembers(frontier.Keys);
    var scan := CollectClaims(w, frontier, owner, strict, paths, warnings);
    if scan.Err? {
      return Err(scan.error);
    }
    var refs := SortedKeys(scan.value.claims.Keys);
    ListingMembers(scan.value.claims.Keys);
    var next := SettleClaims(scan.value.claims, refs);
    if next.Err? {
      return Err(next.error);
    }
    return Ok((next.value, scan.value.warnings));
  }
}
