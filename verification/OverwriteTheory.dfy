/** Extraction with or without Overwrite into any destination (internal/archive/extract.go): when
    it succeeds, and what every path then holds. */
module OverwriteTheory {
  import opened Prelude
  import opened PathTrie
  import opened Limits
  import opened Extraction
  import opened ExtractionTheory

  /** A file can be put at keys: only directories above it, and at most a regular file there,
      which needs Overwrite. */
  ghost predicate Room(tree: Tree, keys: seq<string>, overwrite: bool)
    requires keys != []
  {
    && DirectoryPath(tree, keys[..|keys| - 1])
    && (keys in tree ==> overwrite && tree[keys].File?)
  }

  lemma RoomExactly(tree: Tree, keys: seq<string>, overwrite: bool)
    requires keys != []
    ensures Room(tree, keys, overwrite) <==>
            && (forall n :: 0 <= n < |keys| && keys[..n] in tree ==> tree[keys[..n]].Dir?)
            && (keys in tree ==> overwrite && tree[keys].File?)
  {
    var parent := keys[..|keys| - 1];
    assert forall n :: 0 <= n <= |parent| ==> parent[..n] == keys[..n];
  }

  ghost predicate AllRoom(rules: Rules, entries: seq<Entry>, tree: Tree, overwrite: bool)
    requires Sensible(rules)
  {
    forall i :: 0 <= i < |entries| ==> Room(tree, rules.keys(entries[i].name), overwrite)
  }

  /** Two files of one archive get in each other's way: one lies above the other, or both are the
      same and the second may not replace the first. */
  predicate Clash(rules: Rules, overwrite: bool, a: string, b: string) {
    Collide(rules, a, b) && (overwrite ==> rules.keys(a) != rules.keys(b))
  }

  ghost predicate ClashFree(rules: Rules, overwrite: bool, entries: seq<Entry>) {
    forall i, j :: 0 <= i < j < |entries| ==> !Clash(rules, overwrite, entries[i].name, entries[j].name)
  }

  /** The last entry stored at q, or |entries|. */
  function LastAt(rules: Rules, entries: seq<Entry>, q: seq<string>): (j: nat)
    ensures j <= |entries|
    ensures j < |entries| ==> rules.keys(entries[j].name) == q
    ensures forall i :: 0 <= i < |entries| && rules.keys(entries[i].name) == q ==> i <= j < |entries|
  {
    if entries == [] then 0
    else
      var n := |entries| - 1;
      if rules.keys(entries[n].name) == q then n
      else
        var j := LastAt(rules, entries[..n], q);
        if j == n then |entries| else j
  }

  /** What is at q after entries were written over tree: the last entry stored there; else what
      was there before; else a directory above an entry; else nothing. */
  ghost predicate OverAt(rules: Rules, entries: seq<Entry>, tree: Tree, after: Tree, q: seq<string>)
    requires Complete(entries)
  {
    var j := LastAt(rules, entries, q);
    if j < |entries| then q in after && after[q] == File(Content(entries[j]))
    else if q in tree then q in after && after[q] == tree[q]
    else if q == [] || OnTheWay(rules, Names(entries), q) then q in after && after[q] == Dir
    else q !in after
  }

  ghost predicate Over(rules: Rules, entries: seq<Entry>, tree: Tree, after: Tree)
    requires Complete(entries)
  {
    forall q :: OverAt(rules, entries, tree, after, q)
  }

  lemma WriteNeedsRoom(tree: Tree, keys: seq<string>, size: int, data: Bytes, overwrite: bool)
    requires keys != [] && |data| >= size
    ensures Write(tree, keys, size, data, overwrite).0 <==> Room(tree, keys, overwrite)
  {
    var parent := keys[..|keys| - 1];
    MkdirsAdds(tree, parent, |parent|, keys);
  }

  lemma RoomBefore(rules: Rules, overwrite: bool, entries: seq<Entry>, keys: seq<string>, tree: Tree, now: Tree)
    requires Sensible(rules) && Complete(entries) && Over(rules, entries, tree, now) && keys != []
    requires AllRoom(rules, entries, tree, overwrite) && Room(now, keys, overwrite)
    ensures Room(tree, keys, overwrite)
  {
    var parent := keys[..|keys| - 1];
    forall n | 0 <= n <= |parent| && parent[..n] in tree ensures tree[parent[..n]] == Dir {
      assert OverAt(rules, entries, tree, now, parent[..n]);
    }
    assert OverAt(rules, entries, tree, now, keys);
    var j := LastAt(rules, entries, keys);
    if j < |entries| { assert Room(tree, rules.keys(entries[j].name), overwrite); }
  }

  /** No directory path leads through a file. */
  lemma FileBlocks(tree: Tree, above: seq<string>, keys: seq<string>)
    requires keys != []
    ensures above <= keys && |above| < |keys| && above in tree && tree[above].File? ==>
              !DirectoryPath(tree, keys[..|keys| - 1])
  {
    var parent := keys[..|keys| - 1];
    PrefixSlice(above, keys);
    assert above <= keys && |above| < |keys| ==> parent[..|above|] == above;
  }

  /** A path properly above an entry is a directory. */
  lemma DirectoryAbove(rules: Rules, overwrite: bool, entries: seq<Entry>, tree: Tree, now: Tree, q: seq<string>,
                       j: nat)
    requires Sensible(rules) && Complete(entries) && OverAt(rules, entries, tree, now, q) && j < |entries|
    requires AllRoom(rules, entries, tree, overwrite) && ClashFree(rules, overwrite, entries)
    requires q <= rules.keys(entries[j].name) && |q| < |rules.keys(entries[j].name)|
    ensures q in now && now[q] == Dir
  {
    var other := rules.keys(entries[j].name);
    var parent := other[..|other| - 1];
    PrefixSlice(q, other);
    assert parent[..|q|] == q;
    assert Room(tree, other, overwrite);
    assert q <= rules.keys(Names(entries)[j]);
    assert OnTheWay(rules, Names(entries), q);
    var i := LastAt(rules, entries, q);
    assert i < |entries| ==> Clash(rules, overwrite, entries[i].name, entries[j].name);
    assert i < |entries| ==> Clash(rules, overwrite, entries[j].name, entries[i].name);
  }

  lemma NoClashBelow(rules: Rules, overwrite: bool, entries: seq<Entry>, e: Entry, tree: Tree, now: Tree, j: nat)
    requires Sensible(rules) && Complete(entries) && Over(rules, entries, tree, now) && j < |entries|
    requires AllRoom(rules, entries, tree, overwrite) && ClashFree(rules, overwrite, entries)
    requires Room(now, rules.keys(e.name), overwrite)
    ensures !Clash(rules, overwrite, entries[j].name, e.name)
  {
    var keys, other := rules.keys(e.name), rules.keys(entries[j].name);
    assert OverAt(rules, entries, tree, now, other);
    assert OverAt(rules, entries, tree, now, keys);
    FileBlocks(now, other, keys);
    if keys <= other && |keys| < |other| {
      DirectoryAbove(rules, overwrite, entries, tree, now, keys, j);
    }
  }

  lemma FindClash(rules: Rules, overwrite: bool, entries: seq<Entry>, e: Entry, tree: Tree, now: Tree)
    requires Sensible(rules) && Complete(entries) && Over(rules, entries, tree, now)
    requires Room(tree, rules.keys(e.name), overwrite) && !Room(now, rules.keys(e.name), overwrite)
    ensures exists j :: 0 <= j < |entries| && Clash(rules, overwrite, entries[j].name, e.name)
  {
    var keys := rules.keys(e.name);
    var parent := keys[..|keys| - 1];
    if DirectoryPath(now, parent) {
      assert OverAt(rules, entries, tree, now, keys);
      var j := LastAt(rules, entries, keys);
      if j < |entries| {
        assert Clash(rules, overwrite, entries[j].name, e.name);
      } else {
        var i :| 0 <= i < |Names(entries)| && keys <= rules.keys(Names(entries)[i]);
        assert rules.keys(entries[i].name) != keys;
        assert Clash(rules, overwrite, entries[i].name, e.name);
      }
    } else {
      var n :| 0 <= n <= |parent| && parent[..n] in now && now[parent[..n]] != Dir;
      assert OverAt(rules, entries, tree, now, parent[..n]);
      var j := LastAt(rules, entries, parent[..n]);
      assert parent[..n] <= keys && |parent[..n]| < |keys|;
      assert Clash(rules, overwrite, entries[j].name, e.name);
    }
  }

  /** There is room for one more entry in a written tree exactly when there was room in the
      original one and no earlier entry clashes. */
  lemma RoomForOneMoreOver(rules: Rules, overwrite: bool, entries: seq<Entry>, e: Entry, tree: Tree, now: Tree)
    requires Sensible(rules) && Complete(entries) && Over(rules, entries, tree, now)
    requires AllRoom(rules, entries, tree, overwrite) && ClashFree(rules, overwrite, entries)
    ensures Room(now, rules.keys(e.name), overwrite) <==>
            && Room(tree, rules.keys(e.name), overwrite)
            && forall j :: 0 <= j < |entries| ==> !Clash(rules, overwrite, entries[j].name, e.name)
  {
    var keys := rules.keys(e.name);
    if Room(now, keys, overwrite) {
      forall j | 0 <= j < |entries| ensures !Clash(rules, overwrite, entries[j].name, e.name) {
        NoClashBelow(rules, overwrite, entries, e, tree, now, j);
      }
      RoomBefore(rules, overwrite, entries, keys, tree, now);
    } else if Room(tree, keys, overwrite) {
      FindClash(rules, overwrite, entries, e, tree, now);
    }
  }

  lemma LastAppend(rules: Rules, entries: seq<Entry>, e: Entry, q: seq<string>)
    ensures LastAt(rules, entries + [e], q) ==
            if rules.keys(e.name) == q then |entries|
            else if LastAt(rules, entries, q) < |entries| then LastAt(rules, entries, q) else |entries| + 1
  {
    assert (entries + [e])[..|entries|] == entries;
  }

  lemma WriteOverAt(rules: Rules, entries: seq<Entry>, e: Entry, tree: Tree, now: Tree, after: Tree, q: seq<string>)
    requires Sensible(rules) && Complete(entries + [e]) && Complete(entries) && OverAt(rules, entries, tree, now, q)
    requires |e.data| >= e.size
    requires var keys := rules.keys(e.name);
             var parent := keys[..|keys| - 1];
             after == Mkdirs(now, parent, |parent|)[keys := File(Content(e))]
    ensures OverAt(rules, entries + [e], tree, after, q)
  {
    var keys := rules.keys(e.name);
    var parent := keys[..|keys| - 1];
    MkdirsAdds(now, parent, |parent|, q);
    NamesAppend(entries, e);
    OnTheWayAppend(rules, Names(entries), e.name, q);
    LastAppend(rules, entries, e, q);
    PrefixSlice(q, keys);
    assert |q| < |keys| ==> keys[..|q|] == parent[..|q|];
    assert |q| == |keys| ==> keys[..|q|] == keys;
    var j := LastAt(rules, entries, q);
    if j < |entries| {
      assert (entries + [e])[j] == entries[j];
    }
  }

  /** Writing one more entry where there is room. */
  lemma WriteOver(rules: Rules, overwrite: bool, entries: seq<Entry>, e: Entry, tree: Tree, now: Tree)
    requires Sensible(rules) && Complete(entries + [e]) && Complete(entries)
    requires Over(rules, entries, tree, now) && Room(now, rules.keys(e.name), overwrite)
    ensures var (ok, after) := Write(now, rules.keys(e.name), e.size, e.data, overwrite);
            ok && Over(rules, entries + [e], tree, after)
  {
    var keys := rules.keys(e.name);
    var parent := keys[..|keys| - 1];
    assert (entries + [e])[|entries|] == e;
    var ready := Mkdirs(now, parent, |parent|);
    MkdirsAdds(now, parent, |parent|, keys);
    var after := Write(now, keys, e.size, e.data, overwrite).1;
    assert after == ready[keys := File(Content(e))];
    NamesAppend(entries, e);
    forall q ensures OverAt(rules, entries + [e], tree, after, q) {
      WriteOverAt(rules, entries, e, tree, now, after, q);
    }
  }

  /** What extraction has reached before entry k: done and the earlier entries were written. */
  ghost predicate ReachedOver(rules: Rules, overwrite: bool, done: seq<Entry>, a: Archive, k: nat, tree: Tree,
                              now: Tree)
    requires Sensible(rules) && k <= |a.entries|
  {
    && Complete(done + a.entries[..k])
    && Over(rules, done + a.entries[..k], tree, now)
    && AllRoom(rules, done + a.entries[..k], tree, overwrite)
    && ClashFree(rules, overwrite, done + a.entries[..k])
  }

  /** Nothing stands in the way of done and all of a. */
  ghost predicate Writable(rules: Rules, overwrite: bool, entries: seq<Entry>, tree: Tree)
    requires Sensible(rules)
  {
    AllRoom(rules, entries, tree, overwrite) && ClashFree(rules, overwrite, entries)
  }

  /** A complete entry is written unless it makes the whole impossible. */
  lemma WriteOneOver(rules: Rules, overwrite: bool, done: seq<Entry>, a: Archive, k: nat, tree: Tree, now: Tree)
    requires Sensible(rules) && k < |a.entries| && ReachedOver(rules, overwrite, done, a, k, tree, now)
    requires |a.entries[k].data| >= a.entries[k].size
    ensures var e := a.entries[k];
            var (ok, after) := Write(now, rules.keys(e.name), e.size, e.data, overwrite);
            if Room(now, rules.keys(e.name), overwrite)
            then ok && ReachedOver(rules, overwrite, done, a, k + 1, tree, after)
            else !ok && !Writable(rules, overwrite, done + a.entries, tree)
  {
    var e := a.entries[k];
    var before := done + a.entries[..k];
    assert done + a.entries[..k + 1] == before + [e];
    assert (done + a.entries)[|before|] == e;
    WriteNeedsRoom(now, rules.keys(e.name), e.size, e.data, overwrite);
    RoomForOneMoreOver(rules, overwrite, before, e, tree, now);
    if Room(now, rules.keys(e.name), overwrite) {
      WriteOver(rules, overwrite, before, e, tree, now);
    } else if Room(tree, rules.keys(e.name), overwrite) {
      var j :| 0 <= j < |before| && Clash(rules, overwrite, before[j].name, e.name);
      assert (done + a.entries)[j] == before[j];
    }
  }

  /** From entry k on, extraction succeeds exactly when the rest passes its checks and nothing
      stands in the way. */
  lemma {:induction false} ExtractsOver(rules: Rules, opts: Options, overwrite: bool, done: seq<Entry>, a: Archive,
                                        k: nat, tree: Tree, now: Tree)
    requires Sensible(rules) && k <= |a.entries| && ReachedOver(rules, overwrite, done, a, k, tree, now)
    ensures var (r, after) := ExtractFrom(rules, opts, overwrite, a, k, now);
            && (r.Ok? <==> ChecksFrom(rules, opts, a, k).Ok? && Writable(rules, overwrite, done + a.entries, tree))
            && (r.Ok? ==> Ok(r.value) == ChecksFrom(rules, opts, a, k)
                          && Complete(done + a.entries) && Over(rules, done + a.entries, tree, after))
    decreases |a.entries| - k
  {
    if k == |a.entries| {
      assert a.entries[..k] == a.entries;
    } else {
      var e := a.entries[k];
      if ExtractAdmits(rules, opts, k, Total(a.entries, k), e).None? && |e.data| >= e.size {
        WriteOneOver(rules, overwrite, done, a, k, tree, now);
        if Room(now, rules.keys(e.name), overwrite) {
          ExtractsOver(rules, opts, overwrite, done, a, k + 1, tree,
                       Write(now, rules.keys(e.name), e.size, e.data, overwrite).1);
        }
      }
    }
  }

  lemma OverNothing(rules: Rules, tree: Tree)
    requires DirectoryPath(tree, [])
    ensures Over(rules, [], tree, Mkdirs(tree, [], 0))
  {
    forall q ensures OverAt(rules, [], tree, Mkdirs(tree, [], 0), q) {
      MkdirsAdds(tree, [], 0, q);
      assert !OnTheWay(rules, Names([]), q);
    }
  }

  /** For any destination, with Overwrite or without: an archive extracts exactly when its limits
      and contents are in order, its entries do not get in each other's way, only directories are
      above them, and at their own places is nothing or, with Overwrite, a regular file. Then
      every path holds the last entry stored there, or what it held before, or a directory
      above an entry, or nothing. */
  lemma ExtractedExactly(rules: Rules, opts: Options, overwrite: bool, a: Archive, tree: Tree)
    requires Sensible(rules)
    ensures var (r, after) := Extracted(rules, opts, overwrite, a, tree);
            && (r.Ok? <==>
                  && DirectoryPath(tree, []) && ChecksFrom(rules, opts, a, 0).Ok?
                  && Writable(rules, overwrite, a.entries, tree))
            && (r.Ok? ==> Ok(r.value) == ChecksFrom(rules, opts, a, 0)
                          && Complete(a.entries) && Over(rules, a.entries, tree, after))
  {
    assert [] + a.entries[..0] == [] && [] + a.entries == a.entries;
    if DirectoryPath(tree, []) {
      OverNothing(rules, tree);
      ExtractsOver(rules, opts, overwrite, [], a, 0, tree, Mkdirs(tree, [], 0));
    }
  }

  /** Where all names are acceptable together, every archived file holds its own entry. */
  lemma OwnContent(rules: Rules, entries: seq<Entry>, tree: Tree, after: Tree, i: nat)
    requires Complete(entries) && Over(rules, entries, tree, after) && i < |entries|
    requires CollisionFree(rules, Names(entries))
    ensures var q := rules.keys(entries[i].name);
            q in after && after[q] == File(if entries[i].size < 0 then [] else entries[i].data[..entries[i].size])
  {
    var q := rules.keys(entries[i].name);
    assert OverAt(rules, entries, tree, after, q);
    var j := LastAt(rules, entries, q);
    assert i < j ==> !Collide(rules, Names(entries)[i], Names(entries)[j]);
  }

  /** And every earlier node that is no archived file stays as it was. */
  lemma OthersStay(rules: Rules, entries: seq<Entry>, tree: Tree, after: Tree, q: seq<string>)
    requires Complete(entries) && Over(rules, entries, tree, after) && q in tree
    requires forall i :: 0 <= i < |entries| ==> rules.keys(entries[i].name) != q
    ensures q in after && after[q] == tree[q]
  {
    assert OverAt(rules, entries, tree, after, q);
  }

  /** q is as it was, or a new directory, or a whole entry of a. */
  ghost predicate Untorn(rules: Rules, a: Archive, tree: Tree, after: Tree, q: seq<string>)
    requires q in after
  {
    || (q in tree && after[q] == tree[q])
    || (q !in tree && after[q] == Dir)
    || exists i :: && 0 <= i < |a.entries| && rules.keys(a.entries[i].name) == q
                   && |a.entries[i].data| >= a.entries[i].size && after[q] == File(Content(a.entries[i]))
  }

  lemma WriteUntorn(tree: Tree, keys: seq<string>, size: int, data: Bytes, overwrite: bool, q: seq<string>)
    requires keys != []
    ensures var (ok, after) := Write(tree, keys, size, data, overwrite);
            && (q in after ==>
                  || (q in tree && after[q] == tree[q]) || (q !in tree && after[q] == Dir)
                  || (q == keys && |data| >= size && after[q] == File(if size < 0 then [] else data[..size])))
            && (q in tree && (q != keys || ok) ==> q in after && (q != keys ==> after[q] == tree[q]))
  {
    var parent := keys[..|keys| - 1];
    MkdirsAdds(tree, parent, |parent|, q);
  }

  /** Wherever extraction stops: no file is left with part of an entry, and every earlier node
      that is no archived file stays as it was. */
  lemma {:induction false} NeverTorn(rules: Rules, opts: Options, overwrite: bool, a: Archive, k: nat, tree: Tree,
                                     now: Tree, q: seq<string>)
    requires Sensible(rules) && k <= |a.entries| && (q in tree ==> q in now)
    requires q in now ==> Untorn(rules, a, tree, now, q)
    requires q in tree && (forall i :: 0 <= i < |a.entries| ==> rules.keys(a.entries[i].name) != q) ==>
               q in now && now[q] == tree[q]
    ensures var after := ExtractFrom(rules, opts, overwrite, a, k, now).1;
            && (q in after ==> Untorn(rules, a, tree, after, q))
            && (q in tree && (forall i :: 0 <= i < |a.entries| ==> rules.keys(a.entries[i].name) != q) ==>
                  q in after && after[q] == tree[q])
    decreases |a.entries| - k
  {
    if k < |a.entries| {
      var e := a.entries[k];
      var (ok, next) := Write(now, rules.keys(e.name), e.size, e.data, overwrite);
      WriteUntorn(now, rules.keys(e.name), e.size, e.data, overwrite, q);
      if q in next { assert Untorn(rules, a, tree, next, q); }
      if ok { NeverTorn(rules, opts, overwrite, a, k + 1, tree, next, q); }
    }
  }

  /** An instance: Overwrite replaces the content of a regular file. */
  lemma OverwriteReplaces(rules: Rules, opts: Options, name: string)
    requires Sensible(rules) && rules.fault(name).None? && |rules.keys(name)| == 1
    requires opts.maxFiles >= 1 && opts.maxFile >= 1 && opts.maxTotal >= 1
    ensures var tree: Tree := map[[] := Dir, rules.keys(name) := File([1])];
            var a := Archive([Entry(name, true, 1, [2])], true, [], true);
            var (r, after) := Extracted(rules, opts, true, a, tree);
            r.Ok? && rules.keys(name) in after && after[rules.keys(name)] == File([2])
  {
    var tree: Tree := map[[] := Dir, rules.keys(name) := File([1])];
    var e := Entry(name, true, 1, [2]);
    var a := Archive([e], true, [], true);
    assert Total(a.entries, 0) == 0;
    assert ChecksFrom(rules, opts, a, 1).Ok?;
    assert ChecksFrom(rules, opts, a, 0) == ChecksFrom(rules, opts, a, 1);
    assert rules.keys(name)[..0] == [];
    assert Room(tree, rules.keys(name), true);
    ExtractedExactly(rules, opts, true, a, tree);
    OwnContent(rules, a.entries, tree, Extracted(rules, opts, true, a, tree).1, 0);
    assert e.data[..1] == [2];
  }
}
