/** What the source walk visits: every logical file once, in name order, unless some route is
    blocked; re-entering a directory of the active path always blocks. */
module WalkTheory {
  import opened Prelude
  import opened SourceWalk

  function Lookup(entries: seq<Child>, name: string): Option<Target> {
    if entries == [] then None
    else if entries[0].name == name then Some(entries[0].target)
    else Lookup(entries[1..], name)
  }

  /** ReadDir lists each name once, in ascending order. */
  ghost predicate InNameOrder(entries: seq<Child>) {
    forall i, j :: 0 <= i < j < |entries| ==> Lt(entries[i].name, entries[j].name)
  }

  ghost predicate Listed(s: Source) {
    forall d :: d in s.dirs ==> InNameOrder(s.dirs[d])
  }

  function FollowIn(s: Source, entries: seq<Child>, names: Chain): Option<Target>
    requires names != []
    decreases |names|, 0
  {
    match Lookup(entries, names[0])
    case None => None
    case Some(t) =>
      if |names| == 1 then Some(t)
      else if t.ToDir? then Follow(s, t.id, names[1..])
      else None
  }

  /** What a chain of names leads to, following directory links. */
  function Follow(s: Source, dir: nat, names: Chain): Option<Target>
    decreases |names|, 1
  {
    if names == [] then Some(ToDir(dir))
    else if dir !in s.dirs then None
    else FollowIn(s, s.dirs[dir], names)
  }

  /** The directories entered along a chain of names. */
  function Entered(s: Source, dir: nat, names: Chain): seq<nat>
    decreases |names|
  {
    if names == [] || dir !in s.dirs then []
    else match Lookup(s.dirs[dir], names[0])
      case Some(ToDir(id)) => [id] + Entered(s, id, names[1..])
      case _ => []
  }

  ghost predicate BlockedAt(s: Source, here: Chain, ancestors: seq<nat>, t: Target, rest: Chain)
    decreases |rest|, 2
  {
    if s.rules.fault(PathOf(here)).Some? then rest == []
    else match t
      case Missing => rest == []
      case Special => rest == []
      case ToFile => rest == [] && s.refuse(PathOf(here))
      case ToDir(id) => if id in ancestors then rest == [] else Blocked(s, here, ancestors + [id], rest)
  }

  ghost predicate BlockedIn(s: Source, chain: Chain, ancestors: seq<nat>, entries: seq<Child>, names: Chain)
    requires names != []
    decreases |names|, 0
  {
    var t := Lookup(entries, names[0]);
    t.Some? && BlockedAt(s, chain + [names[0]], ancestors, t.value, names[1..])
  }

  /** The walk from the last ancestor gives up at the end of this chain of names. */
  ghost predicate Blocked(s: Source, chain: Chain, ancestors: seq<nat>, names: Chain)
    requires ancestors != []
    decreases |names|, 1
  {
    if Last(ancestors) !in s.dirs then names == []
    else names != [] && BlockedIn(s, chain, ancestors, s.dirs[Last(ancestors)], names)
  }

  /** No chain of names is blocked. */
  ghost predicate Passable(s: Source, chain: Chain, ancestors: seq<nat>)
    requires ancestors != []
  {
    forall names :: !Blocked(s, chain, ancestors, names)
  }

  /** Everything visited from entries on lies under chain, below one of their names. */
  ghost predicate Under(chain: Chain, entries: seq<Child>, f: Chain) {
    |chain| < |f| && f[..|chain|] == chain && exists k :: 0 <= k < |entries| && entries[k].name == f[|chain|]
  }

  lemma LongerPrefix(chain: Chain, name: string, f: Chain)
    ensures var here := chain + [name];
            f == here || (|here| < |f| && f[..|here|] == here) ==>
              |chain| < |f| && f[..|chain|] == chain && f[|chain|] == name
  {
    var here := chain + [name];
    if |here| <= |f| && f[..|here|] == here {
      assert f[..|chain|] == here[..|chain|] && f[|chain|] == here[|chain|];
    }
  }

  lemma {:induction false} DirUnder(s: Source, chain: Chain, ancestors: seq<nat>, f: Chain)
    requires ancestors != []
    ensures f in WalkDir(s, chain, ancestors).files ==> |chain| < |f| && f[..|chain|] == chain
    decreases Remaining(s, ancestors), if Last(ancestors) in s.dirs then 2 else 0, 0
  {
    if Last(ancestors) in s.dirs {
      FilesUnder(s, chain, ancestors, s.dirs[Last(ancestors)], f);
    }
  }

  lemma {:induction false} EntryUnder(s: Source, chain: Chain, ancestors: seq<nat>, c: Child, f: Chain)
    ensures f in WalkEntry(s, chain, ancestors, c).files ==>
              |chain| < |f| && f[..|chain|] == chain && f[|chain|] == c.name
    decreases Remaining(s, ancestors), 1, 0
  {
    var here := chain + [c.name];
    LongerPrefix(chain, c.name, f);
    if c.target.ToDir? && c.target.id !in ancestors {
      Deeper(s, ancestors, c.target.id);
      DirUnder(s, here, ancestors + [c.target.id], f);
    }
  }

  lemma {:induction false} FilesUnder(s: Source, chain: Chain, ancestors: seq<nat>, entries: seq<Child>, f: Chain)
    ensures f in WalkEntries(s, chain, ancestors, entries).files ==> Under(chain, entries, f)
    decreases Remaining(s, ancestors), 1, |entries|
  {
    if entries != [] {
      EntryUnder(s, chain, ancestors, entries[0], f);
      FilesUnder(s, chain, ancestors, entries[1..], f);
      if Under(chain, entries[1..], f) {
        var k :| 0 <= k < |entries[1..]| && entries[1..][k].name == f[|chain|];
        assert entries[k + 1].name == f[|chain|];
      }
    }
  }

  /** a comes before b: at the first name where they differ, a has the smaller one. */
  ghost predicate Precedes(a: Chain, b: Chain) {
    exists i :: 0 <= i < |a| && i < |b| && a[..i] == b[..i] && Lt(a[i], b[i])
  }

  ghost predicate InOrder(files: seq<Chain>) {
    forall i, j :: 0 <= i < j < |files| ==> Precedes(files[i], files[j])
  }

  lemma {:induction false} EntryInOrder(s: Source, chain: Chain, ancestors: seq<nat>, c: Child)
    requires Listed(s)
    ensures InOrder(WalkEntry(s, chain, ancestors, c).files)
    decreases Remaining(s, ancestors), 1, 0
  {
    if c.target.ToDir? && c.target.id !in ancestors {
      Deeper(s, ancestors, c.target.id);
      DirInOrder(s, chain + [c.name], ancestors + [c.target.id]);
    }
  }

  lemma FirstBeforeRest(chain: Chain, entries: seq<Child>, f: Chain, g: Chain)
    requires entries != [] && InNameOrder(entries)
    requires |chain| < |f| && f[..|chain|] == chain && f[|chain|] == entries[0].name
    requires Under(chain, entries[1..], g)
    ensures Precedes(f, g)
  {
    var k :| 0 <= k < |entries[1..]| && entries[1..][k].name == g[|chain|];
    assert Lt(entries[0].name, entries[k + 1].name);
    assert f[..|chain|] == g[..|chain|] && Lt(f[|chain|], g[|chain|]);
  }

  lemma OrderedConcat(a: seq<Chain>, b: seq<Chain>)
    requires InOrder(a) && InOrder(b) && forall f, g :: f in a && g in b ==> Precedes(f, g)
    ensures InOrder(a + b)
  {
  }

  lemma {:induction false} EntriesInOrder(s: Source, chain: Chain, ancestors: seq<nat>, entries: seq<Child>)
    requires Listed(s) && InNameOrder(entries)
    ensures InOrder(WalkEntries(s, chain, ancestors, entries).files)
    decreases Remaining(s, ancestors), 1, |entries|
  {
    if entries != [] {
      EntryInOrder(s, chain, ancestors, entries[0]);
      EntriesInOrder(s, chain, ancestors, entries[1..]);
      var first := WalkEntry(s, chain, ancestors, entries[0]).files;
      var rest := WalkEntries(s, chain, ancestors, entries[1..]).files;
      forall f, g | f in first && g in rest ensures Precedes(f, g) {
        EntryUnder(s, chain, ancestors, entries[0], f);
        FilesUnder(s, chain, ancestors, entries[1..], g);
        FirstBeforeRest(chain, entries, f, g);
      }
      OrderedConcat(first, rest);
    }
  }

  lemma {:induction false} DirInOrder(s: Source, chain: Chain, ancestors: seq<nat>)
    requires Listed(s) && ancestors != []
    ensures InOrder(WalkDir(s, chain, ancestors).files)
    decreases Remaining(s, ancestors), if Last(ancestors) in s.dirs then 2 else 0, 0
  {
    if Last(ancestors) in s.dirs {
      EntriesInOrder(s, chain, ancestors, s.dirs[Last(ancestors)]);
    }
  }

  lemma OrderedDistinct(files: seq<Chain>)
    requires InOrder(files)
    ensures Distinct(files)
  {
    forall i, j | 0 <= i < j < |files| ensures files[i] != files[j] {
      assert Precedes(files[i], files[j]);
    }
  }

  lemma SameLength(here: Chain, rest: Chain)
    ensures here + rest == here <==> rest == []
  {
    assert |here + rest| == |here| + |rest|;
    if rest == [] { assert here + rest == here; }
  }

  lemma Reassociate(chain: Chain, name: string, below: Chain)
    ensures ([name] + below)[1..] == below && [name] + [] == [name] && [name][1..] == []
    ensures (chain + [name]) + below == chain + ([name] + below)
  {
  }

  lemma {:induction false} EntryMeaning(s: Source, chain: Chain, ancestors: seq<nat>, c: Child, names: Chain)
    requires Listed(s) && names != [] && names[0] == c.name
    requires WalkEntry(s, chain, ancestors, c).error.None?
    ensures !BlockedAt(s, chain + [c.name], ancestors, c.target, names[1..])
    ensures chain + names in WalkEntry(s, chain, ancestors, c).files <==>
            if |names| == 1 then c.target == ToFile
            else c.target.ToDir? && Follow(s, c.target.id, names[1..]) == Some(ToFile)
    decreases Remaining(s, ancestors), 1, 0
  {
    var here := chain + [c.name];
    assert names == [c.name] + names[1..];
    Reassociate(chain, c.name, names[1..]);
    SameLength(here, names[1..]);
    if c.target.ToDir? {
      Deeper(s, ancestors, c.target.id);
      DirMeaning(s, here, ancestors + [c.target.id], names[1..]);
    }
  }

  lemma {:induction false} EntriesMeaning(s: Source, chain: Chain, ancestors: seq<nat>, entries: seq<Child>,
                                          names: Chain)
    requires Listed(s) && InNameOrder(entries) && names != []
    requires WalkEntries(s, chain, ancestors, entries).error.None?
    ensures !BlockedIn(s, chain, ancestors, entries, names)
    ensures chain + names in WalkEntries(s, chain, ancestors, entries).files <==>
            FollowIn(s, entries, names) == Some(ToFile)
    decreases Remaining(s, ancestors), 1, |entries|
  {
    if entries != [] {
      var first := WalkEntry(s, chain, ancestors, entries[0]);
      var rest := WalkEntries(s, chain, ancestors, entries[1..]);
      assert (chain + names)[|chain|] == names[0];
      EntryUnder(s, chain, ancestors, entries[0], chain + names);
      FilesUnder(s, chain, ancestors, entries[1..], chain + names);
      if entries[0].name == names[0] {
        assert chain + names !in rest.files by {
          forall k | 0 <= k < |entries[1..]| ensures entries[1..][k].name != names[0] {
            assert Lt(entries[0].name, entries[k + 1].name);
          }
        }
        EntryMeaning(s, chain, ancestors, entries[0], names);
      } else {
        assert chain + names !in first.files;
        EntriesMeaning(s, chain, ancestors, entries[1..], names);
      }
    }
  }

  /** On success no chain of names is blocked, and the files visited are those the chains of
      names lead to. */
  lemma {:induction false} DirMeaning(s: Source, chain: Chain, ancestors: seq<nat>, names: Chain)
    requires Listed(s) && ancestors != [] && WalkDir(s, chain, ancestors).error.None?
    ensures !Blocked(s, chain, ancestors, names)
    ensures chain + names in WalkDir(s, chain, ancestors).files <==> Follow(s, Last(ancestors), names) == Some(ToFile)
    decreases Remaining(s, ancestors), if Last(ancestors) in s.dirs then 2 else 0, 0
  {
    if names == [] {
      DirUnder(s, chain, ancestors, chain + names);
    } else {
      EntriesMeaning(s, chain, ancestors, s.dirs[Last(ancestors)], names);
    }
  }

  lemma {:induction false} EntryBlocked(s: Source, chain: Chain, ancestors: seq<nat>, c: Child)
    returns (names: Chain)
    requires Listed(s) && WalkEntry(s, chain, ancestors, c).error.Some?
    ensures names != [] && names[0] == c.name
    ensures BlockedAt(s, chain + [c.name], ancestors, c.target, names[1..])
    ensures WalkEntry(s, chain, ancestors, c).error.value.path == PathOf(chain + names)
    decreases Remaining(s, ancestors), 1, 0
  {
    var here := chain + [c.name];
    if s.rules.fault(PathOf(here)).None? && c.target.ToDir? && c.target.id !in ancestors {
      Deeper(s, ancestors, c.target.id);
      var below := DirBlocked(s, here, ancestors + [c.target.id]);
      names := [c.name] + below;
      Reassociate(chain, c.name, below);
    } else {
      names := [c.name];
      Reassociate(chain, c.name, []);
    }
  }

  lemma {:induction false} EntriesBlocked(s: Source, chain: Chain, ancestors: seq<nat>, entries: seq<Child>)
    returns (names: Chain)
    requires Listed(s) && InNameOrder(entries) && WalkEntries(s, chain, ancestors, entries).error.Some?
    ensures names != [] && BlockedIn(s, chain, ancestors, entries, names)
    ensures WalkEntries(s, chain, ancestors, entries).error.value.path == PathOf(chain + names)
    ensures exists k :: 0 <= k < |entries| && entries[k].name == names[0]
    decreases Remaining(s, ancestors), 1, |entries|
  {
    if WalkEntry(s, chain, ancestors, entries[0]).error.Some? {
      names := EntryBlocked(s, chain, ancestors, entries[0]);
    } else {
      names := EntriesBlocked(s, chain, ancestors, entries[1..]);
      var k :| 0 <= k < |entries[1..]| && entries[1..][k].name == names[0];
      assert entries[k + 1].name == names[0] && Lt(entries[0].name, entries[k + 1].name);
    }
  }

  /** A failed walk names a blocked chain. */
  lemma {:induction false} DirBlocked(s: Source, chain: Chain, ancestors: seq<nat>) returns (names: Chain)
    requires Listed(s) && ancestors != [] && WalkDir(s, chain, ancestors).error.Some?
    ensures Blocked(s, chain, ancestors, names)
    ensures WalkDir(s, chain, ancestors).error.value.path == PathOf(chain + names)
    decreases Remaining(s, ancestors), if Last(ancestors) in s.dirs then 2 else 0, 0
  {
    if Last(ancestors) !in s.dirs {
      names := [];
      assert chain + names == chain;
    } else {
      names := EntriesBlocked(s, chain, ancestors, s.dirs[Last(ancestors)]);
    }
  }

  /** The walk succeeds exactly when no chain of names from the root is blocked. Then it has
      visited the logical files, each once and in name order at every level; and a failed walk
      reports the path of a blocked chain. */
  lemma WalkVisitsExactly(s: Source, root: nat)
    requires Listed(s)
    ensures var r := WalkDir(s, [], [root]);
            && (r.error.None? <==> Passable(s, [], [root]))
            && (r.error.None? ==> forall names :: names in r.files <==> Follow(s, root, names) == Some(ToFile))
            && (r.error.Some? ==> exists names :: Blocked(s, [], [root], names) && r.error.value.path == PathOf(names))
            && InOrder(r.files) && Distinct(r.files)
  {
    var r := WalkDir(s, [], [root]);
    if r.error.None? {
      forall names ensures !Blocked(s, [], [root], names)
                   ensures names in r.files <==> Follow(s, root, names) == Some(ToFile) {
        DirMeaning(s, [], [root], names);
        assert [] + names == names;
      }
    } else {
      var names := DirBlocked(s, [], [root]);
      assert [] + names == names;
      assert Blocked(s, [], [root], names);
    }
    DirInOrder(s, [], [root]);
    OrderedDistinct(r.files);
  }

  lemma BlockedStep(s: Source, chain: Chain, ancestors: seq<nat>, names: Chain)
    requires ancestors != [] && names != [] && Last(ancestors) in s.dirs
    requires Lookup(s.dirs[Last(ancestors)], names[0]).Some?
    ensures Blocked(s, chain, ancestors, names) <==>
            BlockedAt(s, chain + [names[0]], ancestors, Lookup(s.dirs[Last(ancestors)], names[0]).value, names[1..])
  {
  }

  lemma {:induction false} NoReentry(s: Source, chain: Chain, ancestors: seq<nat>, names: Chain)
    requires ancestors != [] && Distinct(ancestors)
    requires Passable(s, chain, ancestors)
    ensures Distinct(ancestors + Entered(s, Last(ancestors), names))
    decreases |names|
  {
    var dir := Last(ancestors);
    if names == [] || dir !in s.dirs
       || !(Lookup(s.dirs[dir], names[0]).Some? && Lookup(s.dirs[dir], names[0]).value.ToDir?) {
      assert ancestors + [] == ancestors;
    } else {
      var id := Lookup(s.dirs[dir], names[0]).value.id;
      var here := chain + [names[0]];
      BlockedStep(s, chain, ancestors, [names[0]]);
      assert !BlockedAt(s, here, ancestors, ToDir(id), []);
      forall ns ensures !Blocked(s, here, ancestors + [id], ns) {
        BlockedStep(s, chain, ancestors, [names[0]] + ns);
        assert ([names[0]] + ns)[1..] == ns;
      }
      NoReentry(s, here, ancestors + [id], names[1..]);
      assert ancestors + Entered(s, dir, names) == (ancestors + [id]) + Entered(s, id, names[1..]);
    }
  }

  /** A walk that succeeds never enters a directory twice on one path, whatever the links: a tree
      in which some chain of names leads back to a directory above it is always refused. */
  lemma ReentryIsRefused(s: Source, root: nat, names: Chain)
    requires Listed(s) && WalkDir(s, [], [root]).error.None?
    ensures Distinct([root] + Entered(s, root, names))
  {
    WalkVisitsExactly(s, root);
    NoReentry(s, [], [root], names);
  }

  /** No visited file was refused, and the refusal that ends a walk is the visitor's own. */
  ghost predicate RefusedRightly(s: Source, r: Walked) {
    && (forall names :: names in r.files ==> !s.refuse(PathOf(names)))
    && (r.error.Some? && r.error.value.Refused? ==> s.refuse(r.error.value.path))
  }

  lemma {:induction false} EntryRefused(s: Source, chain: Chain, ancestors: seq<nat>, c: Child)
    ensures RefusedRightly(s, WalkEntry(s, chain, ancestors, c))
    decreases Remaining(s, ancestors), 1, 0
  {
    if s.rules.fault(PathOf(chain + [c.name])).None? && c.target.ToDir? && c.target.id !in ancestors {
      Deeper(s, ancestors, c.target.id);
      DirRefused(s, chain + [c.name], ancestors + [c.target.id]);
    }
  }

  lemma {:induction false} EntriesRefused(s: Source, chain: Chain, ancestors: seq<nat>, entries: seq<Child>)
    ensures RefusedRightly(s, WalkEntries(s, chain, ancestors, entries))
    decreases Remaining(s, ancestors), 1, |entries|
  {
    if entries != [] {
      EntryRefused(s, chain, ancestors, entries[0]);
      EntriesRefused(s, chain, ancestors, entries[1..]);
    }
  }

  lemma {:induction false} DirRefused(s: Source, chain: Chain, ancestors: seq<nat>)
    requires ancestors != []
    ensures RefusedRightly(s, WalkDir(s, chain, ancestors))
    decreases Remaining(s, ancestors), if Last(ancestors) in s.dirs then 2 else 0, 0
  {
    if Last(ancestors) in s.dirs { EntriesRefused(s, chain, ancestors, s.dirs[Last(ancestors)]); }
  }
}
