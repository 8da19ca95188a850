/** The walk over a source tree with directory links (internal/sourcepath/resolver.go). A link
    may lead back to a directory above it; the walk is cut off there by comparing directory
    identities with those on the active path. */
module SourceWalk {
  import opened Prelude
  import opened BundlePath
  import opened PathTrie

  /** What an entry of a directory resolves to; Special stands for every resolution error
      (an escape from the root, a loop of links, a device). */
  datatype Target = ToFile | ToDir(id: nat) | Missing | Special

  datatype Child = Child(name: string, target: Target)

  /** Readable directories by identity, each with its entries as ReadDir lists them; the syntax
      of bundle paths; and the paths on which the caller's visitor returns an error. */
  datatype Source = Source(dirs: map<nat, seq<Child>>, rules: Rules, refuse: string -> bool)

  /** The names that lead from the root to a logical file or directory. */
  type Chain = seq<string>

  datatype WalkError =
    | Unreadable(path: string)
    | Rejected(path: string)
    | Cycle(path: string)
    | Disappeared(path: string)
    | Refused(path: string)

  datatype Walked = Walked(files: seq<Chain>, error: Option<WalkError>)

  function PathOf(chain: Chain): string {
    if chain == [] then "" else Join(chain)
  }

  function Paths(chains: seq<Chain>): seq<string> {
    if chains == [] then [] else [PathOf(chains[0])] + Paths(chains[1..])
  }

  lemma {:induction false} PathsConcat(a: seq<Chain>, b: seq<Chain>)
    ensures Paths(a + b) == Paths(a) + Paths(b)
  {
    if a == [] {
      assert a + b == b;
    } else {
      assert (a + b)[1..] == a[1..] + b;
      PathsConcat(a[1..], b);
    }
  }

  lemma {:induction false} PathOfAppend(chain: Chain, name: string)
    ensures PathOf(chain + [name]) == if chain == [] then name else PathOf(chain) + "/" + name
  {
    if chain == [] {
      assert chain + [name] == [name];
    } else if |chain| == 1 {
      assert (chain + [name])[1..] == [name] && Join([name]) == name;
    } else {
      assert (chain + [name])[1..] == chain[1..] + [name];
      PathOfAppend(chain[1..], name);
    }
  }

  function Last(ancestors: seq<nat>): nat
    requires ancestors != []
  {
    ancestors[|ancestors| - 1]
  }

  /** Readable directories not on the active path. */
  ghost function Remaining(s: Source, ancestors: seq<nat>): nat {
    |s.dirs.Keys - Elements(ancestors)|
  }

  lemma Deeper(s: Source, ancestors: seq<nat>, id: nat)
    requires id !in ancestors
    ensures Remaining(s, ancestors + [id]) + (if id in s.dirs then 1 else 0) == Remaining(s, ancestors)
  {
    var left := s.dirs.Keys - Elements(ancestors);
    assert Elements(ancestors + [id]) == Elements(ancestors) + {id};
    assert s.dirs.Keys - Elements(ancestors + [id]) == left - {id};
  }

  ghost function WalkEntry(s: Source, chain: Chain, ancestors: seq<nat>, c: Child): Walked
    decreases Remaining(s, ancestors), 1, 0
  {
    var here := chain + [c.name];
    var path := PathOf(here);
    if s.rules.fault(path).Some? then Walked([], Some(Rejected(path)))
    else match c.target
      case Special => Walked([], Some(Rejected(path)))
      case Missing => Walked([], Some(Disappeared(path)))
      case ToFile => if s.refuse(path) then Walked([], Some(Refused(path))) else Walked([here], None)
      case ToDir(id) =>
        if id in ancestors then Walked([], Some(Cycle(path)))
        else
          Deeper(s, ancestors, id);
          WalkDir(s, here, ancestors + [id])
  }

  ghost function WalkEntries(s: Source, chain: Chain, ancestors: seq<nat>, entries: seq<Child>): Walked
    decreases Remaining(s, ancestors), 1, |entries|
  {
    if entries == [] then Walked([], None)
    else
      var first := WalkEntry(s, chain, ancestors, entries[0]);
      if first.error.Some? then first
      else
        var rest := WalkEntries(s, chain, ancestors, entries[1..]);
        Walked(first.files + rest.files, rest.error)
  }

  /** The walk as a function: the files visited in order, and what ended it early. */
  ghost function WalkDir(s: Source, chain: Chain, ancestors: seq<nat>): Walked
    requires ancestors != []
    decreases Remaining(s, ancestors), if Last(ancestors) in s.dirs then 2 else 0, 0
  {
    if Last(ancestors) !in s.dirs then Walked([], Some(Unreadable(PathOf(chain))))
    else WalkEntries(s, chain, ancestors, s.dirs[Last(ancestors)])
  }

  /** sameAsAny on the first n slots of the shared buffer. */
  method SameAsAny(id: nat, buffer: array<nat>, n: nat) returns (found: bool)
    requires n <= buffer.Length
    ensures found <==> id in buffer[..n]
  {
    var i := 0;
    while i < n
      invariant i <= n && id !in buffer[..i]
    {
      if buffer[i] == id {
        return true;
      }
      i := i + 1;
    }
    return false;
  }

  /** append on a slice of length n over buffer: the free slot is written in place when the
      buffer has one, and otherwise the elements move to a larger buffer. */
  method Append(buffer: array<nat>, n: nat, id: nat) returns (r: array<nat>)
    requires n <= buffer.Length
    modifies buffer
    ensures n < r.Length && r[..n + 1] == old(buffer[..n]) + [id]
    ensures r == buffer || (fresh(r) && buffer[..] == old(buffer[..]))
    ensures buffer[..n] == old(buffer[..n])
  {
    if n < buffer.Length {
      buffer[n] := id;
      r := buffer;
    } else {
      var capacity: nat :| n < capacity;
      r := new nat[capacity];
      forall i | 0 <= i < n {
        r[i] := buffer[i];
      }
      r[n] := id;
    }
  }

  ghost function Then(visited: seq<Chain>, r: Walked): Walked {
    Walked(visited + r.files, r.error)
  }

  lemma ThenEntry(visited: seq<Chain>, first: Walked, rest: Walked)
    ensures Then(visited, Walked(first.files + rest.files, rest.error)) == Then(visited + first.files, rest)
    ensures Then(visited, first) == Walked(visited + first.files, first.error)
  {
    assert visited + (first.files + rest.files) == (visited + first.files) + rest.files;
  }

  /** walkDirectory with append(ancestors, info). */
  method EnterDirectory(s: Source, path: string, ghost here: Chain, id: nat, buffer: array<nat>, n: nat)
    returns (files: seq<string>, error: Option<WalkError>)
    requires 0 < n <= buffer.Length && id !in buffer[..n]
    requires path == PathOf(here) && path != "" && Sensible(s.rules)
    modifies buffer
    ensures buffer[..n] == old(buffer[..n])
    ensures var r := WalkDir(s, here, old(buffer[..n]) + [id]); files == Paths(r.files) && error == r.error
    decreases Remaining(s, buffer[..n]), 1, 0
  {
    ghost var ancestors := buffer[..n];
    Deeper(s, ancestors, id);
    var longer := Append(buffer, n, id);
    ghost var deeper := longer[..n + 1];
    assert deeper[n] == id && deeper[..n] == ancestors;
    files, error := WalkDirectory(s, path, here, id, longer, n + 1);
    if longer == buffer {
      assert buffer[..n] == longer[..n + 1][..n];
    }
  }

  /** The body of the loop over the entries of a directory. */
  method VisitEntry(s: Source, bundleDir: string, ghost chain: Chain, c: Child, buffer: array<nat>, n: nat)
    returns (files: seq<string>, error: Option<WalkError>)
    requires 0 < n <= buffer.Length
    requires bundleDir == PathOf(chain) && (chain != [] ==> bundleDir != "") && Sensible(s.rules)
    modifies buffer
    ensures buffer[..n] == old(buffer[..n])
    ensures var r := WalkEntry(s, chain, old(buffer[..n]), c); files == Paths(r.files) && error == r.error
    decreases Remaining(s, buffer[..n]), 1, 1
  {
    var path := if bundleDir == "" then c.name else bundleDir + "/" + c.name;
    PathOfAppend(chain, c.name);
    files, error := [], None;
    if s.rules.fault(path).Some? || c.target.Special? {
      error := Some(Rejected(path));
    } else if c.target.Missing? {
      error := Some(Disappeared(path));
    } else if c.target.ToFile? {
      if s.refuse(path) {
        error := Some(Refused(path));
      } else {
        files := [path];
      }
    } else {
      var seen := SameAsAny(c.target.id, buffer, n);
      if seen {
        error := Some(Cycle(path));
      } else {
        files, error := EnterDirectory(s, path, chain + [c.name], c.target.id, buffer, n);
      }
    }
  }

  /** walkDirectory. Its ancestors are the first n slots of buffer, and sibling calls overwrite
      the slots behind them; no call ever changes the slots of its caller. */
  method WalkDirectory(s: Source, bundleDir: string, ghost chain: Chain, dir: nat, buffer: array<nat>, n: nat)
    returns (files: seq<string>, error: Option<WalkError>)
    requires 0 < n <= buffer.Length && buffer[n - 1] == dir
    requires bundleDir == PathOf(chain) && (chain != [] ==> bundleDir != "") && Sensible(s.rules)
    modifies buffer
    ensures buffer[..n] == old(buffer[..n])
    ensures var r := WalkDir(s, chain, old(buffer[..n])); files == Paths(r.files) && error == r.error
    decreases Remaining(s, buffer[..n]), if dir in s.dirs then 2 else 0, 0
  {
    files := [];
    ghost var ancestors := buffer[..n];
    if dir !in s.dirs {
      return [], Some(Unreadable(bundleDir));
    }
    var entries := s.dirs[dir];
    ghost var visited: seq<Chain> := [];
    var k := 0;
    while k < |entries|
      invariant k <= |entries|
      invariant buffer[..n] == ancestors
      invariant files == Paths(visited)
      invariant WalkDir(s, chain, ancestors) == Then(visited, WalkEntries(s, chain, ancestors, entries[k..]))
    {
      assert entries[k..][0] == entries[k] && entries[k..][1..] == entries[k + 1..];
      var below, failed := VisitEntry(s, bundleDir, chain, entries[k], buffer, n);
      ghost var r := WalkEntry(s, chain, ancestors, entries[k]);
      ThenEntry(visited, r, WalkEntries(s, chain, ancestors, entries[k + 1..]));
      PathsConcat(visited, r.files);
      files := files + below;
      visited := visited + r.files;
      if failed.Some? {
        return files, failed;
      }
      k := k + 1;
    }
    error := None;
    assert visited + [] == visited;
  }
}
