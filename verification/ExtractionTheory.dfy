/** Extraction succeeds exactly when the collision check accepts, whatever the order of the
    entries, and leaves exactly the archived files. */
module ExtractionTheory {
  import opened Prelude
  import opened PathTrie
  import opened Limits
  import opened Extraction

  const EMPTY: seq<string> := []

  /** Every node of before is still there, unchanged. */
  ghost predicate Kept(before: Tree, after: Tree) {
    forall q :: q in before ==> q in after && after[q] == before[q]
  }

  lemma WriteKeeps(tree: Tree, keys: seq<string>, size: int, data: Bytes)
    requires keys != []
    ensures Kept(tree, Write(tree, keys, size, data, false).1)
  {
    var parent := keys[..|keys| - 1];
    forall q | q in tree
      ensures q in Mkdirs(tree, parent, |parent|) && Mkdirs(tree, parent, |parent|)[q] == tree[q]
    {
      MkdirsAdds(tree, parent, |parent|, q);
    }
  }

  /** With Overwrite off, no node that was there before is changed or removed, wherever
      extraction stops. */
  lemma {:induction false} KeepsExisting(rules: Rules, opts: Options, a: Archive, k: nat, tree: Tree)
    requires Sensible(rules) && k <= |a.entries|
    ensures Kept(tree, ExtractFrom(rules, opts, false, a, k, tree).1)
    decreases |a.entries| - k
  {
    if k < |a.entries| {
      var e := a.entries[k];
      var (ok, next) := Write(tree, rules.keys(e.name), e.size, e.data, false);
      WriteKeeps(tree, rules.keys(e.name), e.size, e.data);
      KeepsExisting(rules, opts, a, k + 1, next);
    }
  }

  function Content(e: Entry): Bytes
    requires |e.data| >= e.size
  {
    if e.size < 0 then [] else e.data[..e.size]
  }

  /** The first entry stored at q, or |entries|. */
  function StoredAt(rules: Rules, entries: seq<Entry>, q: seq<string>): (j: nat)
    ensures j <= |entries|
    ensures forall i :: 0 <= i < j ==> rules.keys(entries[i].name) != q
    ensures j < |entries| ==> rules.keys(entries[j].name) == q
  {
    if entries == [] || rules.keys(entries[0].name) == q then 0 else 1 + StoredAt(rules, entries[1..], q)
  }

  ghost predicate Complete(entries: seq<Entry>) {
    forall i :: 0 <= i < |entries| ==> |entries[i].data| >= entries[i].size
  }

  /** What is at q after all entries were written over tree: what was there, or the entry's
      file, or a directory above an entry, or nothing. */
  ghost predicate GrownAt(rules: Rules, entries: seq<Entry>, tree: Tree, after: Tree, q: seq<string>)
    requires Complete(entries)
  {
    && (q in after <==> q in tree || q == [] || OnTheWay(rules, Names(entries), q))
    && (q in tree ==> q in after && after[q] == tree[q])
    && (q in after && q !in tree ==>
          after[q] == var j := StoredAt(rules, entries, q);
                      if j < |entries| then File(Content(entries[j])) else Dir)
  }

  ghost predicate Grown(rules: Rules, entries: seq<Entry>, tree: Tree, after: Tree)
    requires Complete(entries)
  {
    forall q :: GrownAt(rules, entries, tree, after, q)
  }

  /** Nothing in tree stands in the way of a new file at keys. */
  predicate Clear(tree: Tree, keys: seq<string>)
    requires keys != []
  {
    keys !in tree && DirectoryPath(tree, keys[..|keys| - 1])
  }

  ghost predicate AllClear(rules: Rules, entries: seq<Entry>, tree: Tree)
    requires Sensible(rules)
  {
    forall i :: 0 <= i < |entries| ==> Clear(tree, rules.keys(entries[i].name))
  }

  lemma NamesAppend(entries: seq<Entry>, e: Entry)
    ensures Names(entries + [e]) == Names(entries) + [e.name]
  {
  }

  lemma NotAbove(rules: Rules, entries: seq<Entry>, e: Entry, tree: Tree, now: Tree, j: nat)
    requires Sensible(rules) && Complete(entries) && Grown(rules, entries, tree, now)
    requires AllClear(rules, entries, tree) && j < |entries|
    requires Clear(now, rules.keys(e.name))
    ensures !(rules.keys(entries[j].name) <= rules.keys(e.name))
  {
    var keys, above := rules.keys(e.name), rules.keys(entries[j].name);
    assert GrownAt(rules, entries, tree, now, above);
    assert above <= rules.keys(Names(entries)[j]);
    assert OnTheWay(rules, Names(entries), above);
    assert Clear(tree, above);
    assert now[above].File?;
    var parent := keys[..|keys| - 1];
    PrefixSlice(above, keys);
    if |above| < |keys| { assert keys[..|above|] == parent[..|above|]; }
    if |above| == |keys| { assert keys[..|above|] == keys; }
  }

  lemma FindBlocker(rules: Rules, entries: seq<Entry>, e: Entry, tree: Tree, now: Tree)
    requires Sensible(rules) && Complete(entries) && Grown(rules, entries, tree, now)
    requires Clear(tree, rules.keys(e.name)) && !Clear(now, rules.keys(e.name))
    ensures exists j :: 0 <= j < |entries| && Collide(rules, entries[j].name, e.name)
  {
    var keys := rules.keys(e.name);
    var parent := keys[..|keys| - 1];
    if keys in now {
      assert GrownAt(rules, entries, tree, now, keys);
      var j :| 0 <= j < |Names(entries)| && keys <= rules.keys(Names(entries)[j]);
      assert Collide(rules, entries[j].name, e.name);
    } else {
      var n :| 0 <= n <= |parent| && parent[..n] in now && now[parent[..n]] != Dir;
      assert GrownAt(rules, entries, tree, now, parent[..n]);
      var j := StoredAt(rules, entries, parent[..n]);
      assert parent[..n] <= keys;
      assert Collide(rules, entries[j].name, e.name);
    }
  }

  /** A file can be added to a grown tree exactly when the original tree leaves room and no
      earlier entry collides. */
  lemma RoomForOneMore(rules: Rules, entries: seq<Entry>, e: Entry, tree: Tree, now: Tree)
    requires Sensible(rules) && Complete(entries) && Grown(rules, entries, tree, now)
    requires AllClear(rules, entries, tree)
    ensures Clear(now, rules.keys(e.name)) <==>
            && Clear(tree, rules.keys(e.name))
            && forall j :: 0 <= j < |entries| ==> !Collide(rules, entries[j].name, e.name)
  {
    var keys := rules.keys(e.name);
    var parent := keys[..|keys| - 1];
    assert GrownAt(rules, entries, tree, now, keys);
    forall n | 0 <= n <= |parent|
      ensures parent[..n] in tree ==> parent[..n] in now && now[parent[..n]] == tree[parent[..n]]
    {
      assert GrownAt(rules, entries, tree, now, parent[..n]);
    }
    if Clear(now, keys) {
      forall j | 0 <= j < |entries| ensures !Collide(rules, entries[j].name, e.name) {
        NotAbove(rules, entries, e, tree, now, j);
        assert keys <= rules.keys(Names(entries)[j]) ==> OnTheWay(rules, Names(entries), keys);
      }
    } else if Clear(tree, keys) {
      FindBlocker(rules, entries, e, tree, now);
    }
  }

  lemma {:induction false} StoredAppend(rules: Rules, entries: seq<Entry>, e: Entry, q: seq<string>)
    ensures StoredAt(rules, entries + [e], q) ==
            if StoredAt(rules, entries, q) < |entries| then StoredAt(rules, entries, q)
            else if rules.keys(e.name) == q then |entries| else |entries| + 1
  {
    if entries == [] {
      assert entries + [e] == [e];
      assert [e][1..] == [];
    } else {
      assert (entries + [e])[1..] == entries[1..] + [e];
      StoredAppend(rules, entries[1..], e, q);
    }
  }

  /** Writing one more clear file grows the tree by its entry. */
  lemma WriteGrows(rules: Rules, entries: seq<Entry>, e: Entry, tree: Tree, now: Tree)
    requires Sensible(rules) && Complete(entries + [e]) && Complete(entries)
    requires Grown(rules, entries, tree, now)
    requires Clear(now, rules.keys(e.name))
    ensures var (ok, after) := Write(now, rules.keys(e.name), e.size, e.data, false);
            ok && Grown(rules, entries + [e], tree, after)
  {
    var keys := rules.keys(e.name);
    var parent := keys[..|keys| - 1];
    assert (entries + [e])[|entries|] == e;
    var ready := Mkdirs(now, parent, |parent|);
    MkdirsAdds(now, parent, |parent|, keys);
    var after := Write(now, keys, e.size, e.data, false).1;
    assert after == ready[keys := File(Content(e))];
    NamesAppend(entries, e);
    forall q ensures GrownAt(rules, entries + [e], tree, after, q) {
      assert GrownAt(rules, entries, tree, now, q);
      assert GrownAt(rules, entries, tree, now, keys);
      MkdirsAdds(now, parent, |parent|, q);
      OnTheWayAppend(rules, Names(entries), e.name, q);
      StoredAppend(rules, entries, e, q);
      PrefixSlice(q, keys);
      assert |q| < |keys| ==> keys[..|q|] == parent[..|q|];
      assert |q| == |keys| ==> keys[..|q|] == keys;
      if StoredAt(rules, entries, q) < |entries| {
        var j := StoredAt(rules, entries, q);
        assert q <= rules.keys(Names(entries)[j]);
        assert OnTheWay(rules, Names(entries), q);
      }
    }
  }

  lemma WriteBlocked(tree: Tree, keys: seq<string>, size: int, data: Bytes)
    requires keys != [] && |data| >= size
    ensures Write(tree, keys, size, data, false).0 <==> Clear(tree, keys)
  {
    var parent := keys[..|keys| - 1];
    MkdirsAdds(tree, parent, |parent|, keys);
  }

  /** Where the destination is clear, Overwrite makes no difference. */
  lemma OverwriteIrrelevant(tree: Tree, keys: seq<string>, size: int, data: Bytes)
    requires keys != [] && Clear(tree, keys)
    ensures Write(tree, keys, size, data, true) == Write(tree, keys, size, data, false)
  {
    var parent := keys[..|keys| - 1];
    MkdirsAdds(tree, parent, |parent|, keys);
  }

  /** The limits hold, the names of done and of a are free of collisions, and the original
      destination leaves room. */
  ghost predicate Extractable(rules: Rules, opts: Options, done: seq<Entry>, a: Archive, k: nat, tree: Tree)
    requires Sensible(rules) && k <= |a.entries|
  {
    && ChecksFrom(rules, opts, a, k).Ok?
    && CollisionFree(rules, Names(done + a.entries)) && AllClear(rules, done + a.entries, tree)
  }

  lemma FreeOfOneMore(rules: Rules, entries: seq<Entry>, e: Entry)
    requires CollisionFree(rules, Names(entries))
    requires forall j :: 0 <= j < |entries| ==> !Collide(rules, entries[j].name, e.name)
    ensures CollisionFree(rules, Names(entries + [e]))
  {
    NamesAppend(entries, e);
  }

  /** What extraction has reached before entry k: a tree grown by done and the earlier entries. */
  ghost predicate Reached(rules: Rules, done: seq<Entry>, a: Archive, k: nat, tree: Tree, now: Tree)
    requires Sensible(rules) && k <= |a.entries|
  {
    && Complete(done + a.entries[..k])
    && Grown(rules, done + a.entries[..k], tree, now)
    && AllClear(rules, done + a.entries[..k], tree)
    && CollisionFree(rules, Names(done + a.entries[..k]))
  }

  /** A complete entry is written, and grows the tree, unless it makes the whole impossible. */
  lemma WriteOne(rules: Rules, opts: Options, overwrite: bool, done: seq<Entry>, a: Archive, k: nat,
                 tree: Tree, now: Tree)
    requires Sensible(rules) && k < |a.entries| && Reached(rules, done, a, k, tree, now)
    requires |a.entries[k].data| >= a.entries[k].size
    ensures var e := a.entries[k];
            var (ok, after) := Write(now, rules.keys(e.name), e.size, e.data, overwrite);
            && (Clear(now, rules.keys(e.name)) ==> ok && Reached(rules, done, a, k + 1, tree, after))
            && (!Clear(now, rules.keys(e.name)) ==>
                  (!overwrite ==> !ok) && !Extractable(rules, opts, done, a, k, tree))
  {
    var e := a.entries[k];
    var before := done + a.entries[..k];
    assert done + a.entries[..k + 1] == before + [e];
    assert (done + a.entries)[|before|] == e;
    WriteBlocked(now, rules.keys(e.name), e.size, e.data);
    RoomForOneMore(rules, before, e, tree, now);
    if Clear(now, rules.keys(e.name)) {
      OverwriteIrrelevant(now, rules.keys(e.name), e.size, e.data);
      WriteGrows(rules, before, e, tree, now);
      FreeOfOneMore(rules, before, e);
    } else if Clear(tree, rules.keys(e.name)) {
      var j :| 0 <= j < |before| && Collide(rules, before[j].name, e.name);
      assert Names(done + a.entries)[j] == before[j].name;
      assert Collide(rules, Names(done + a.entries)[j], Names(done + a.entries)[|before|]);
    }
  }

  /** From entry k on, over a tree grown by done and by the earlier entries, extraction succeeds
      exactly when it can. */
  lemma {:induction false} ExtractsFrom(rules: Rules, opts: Options, overwrite: bool, done: seq<Entry>,
                                        a: Archive, k: nat, tree: Tree, now: Tree)
    requires Sensible(rules) && k <= |a.entries| && Reached(rules, done, a, k, tree, now)
    ensures Extractable(rules, opts, done, a, k, tree) ==>
              var (r, after) := ExtractFrom(rules, opts, overwrite, a, k, now);
              && r.Ok? && Ok(r.value) == ChecksFrom(rules, opts, a, k)
              && Complete(done + a.entries) && Grown(rules, done + a.entries, tree, after)
    ensures !overwrite && ExtractFrom(rules, opts, overwrite, a, k, now).0.Ok? ==>
              Extractable(rules, opts, done, a, k, tree)
    decreases |a.entries| - k
  {
    if k == |a.entries| {
      assert a.entries[..k] == a.entries;
    } else {
      var e := a.entries[k];
      if ExtractAdmits(rules, opts, k, Total(a.entries, k), e).None? && |e.data| >= e.size {
        WriteOne(rules, opts, overwrite, done, a, k, tree, now);
        if Clear(now, rules.keys(e.name)) {
          ExtractsFrom(rules, opts, overwrite, done, a, k + 1, tree,
                       Write(now, rules.keys(e.name), e.size, e.data, overwrite).1);
        }
      }
    }
  }

  lemma {:induction false} ChecksMeanValid(rules: Rules, opts: Options, a: Archive, k: nat)
    requires k <= |a.entries| && ChecksFrom(rules, opts, a, k).Ok?
    ensures forall i :: k <= i < |a.entries| ==>
              rules.fault(a.entries[i].name).None? && |a.entries[i].data| >= a.entries[i].size
    decreases |a.entries| - k
  {
    if k < |a.entries| { ChecksMeanValid(rules, opts, a, k + 1); }
  }

  lemma GrownByNothing(rules: Rules, tree: Tree)
    ensures Grown(rules, [], tree, Mkdirs(tree, [], 0))
  {
    forall q ensures GrownAt(rules, [], tree, Mkdirs(tree, [], 0), q) {
      MkdirsAdds(tree, [], 0, q);
      assert !OnTheWay(rules, Names([]), q);
    }
  }

  /** Without Overwrite, an archive extracts into a destination exactly when its limits and
      contents are in order, ValidateBundlePaths accepts its names, and the destination has
      neither the files nor anything but directories above them. Then the destination holds
      the archived files, the directories above them, what it held before, and nothing else. */
  lemma ExtractionSucceedsExactly(rules: Rules, opts: Options, a: Archive, tree: Tree)
    requires Sensible(rules)
    ensures Extracted(rules, opts, false, a, tree).0.Ok? <==>
            && DirectoryPath(tree, [])
            && ChecksFrom(rules, opts, a, 0).Ok?
            && Check(rules, Names(a.entries), 0) == Accepted
            && AllClear(rules, a.entries, tree)
    ensures var (r, after) := Extracted(rules, opts, false, a, tree);
            r.Ok? ==> Ok(r.value) == ChecksFrom(rules, opts, a, 0)
                      && Complete(a.entries) && Grown(rules, a.entries, tree, after)
  {
    assert [] + a.entries[..0] == [] && [] + a.entries == a.entries;
    AcceptsExactly(rules, Names(a.entries));
    if ChecksFrom(rules, opts, a, 0).Ok? { ChecksMeanValid(rules, opts, a, 0); }
    if DirectoryPath(tree, []) {
      GrownByNothing(rules, tree);
      ExtractsFrom(rules, opts, false, [], a, 0, tree, Mkdirs(tree, [], 0));
    }
  }

  lemma EmptyIsClear(rules: Rules, entries: seq<Entry>, tree: Tree)
    requires Sensible(rules) && tree.Keys <= {[]} && DirectoryPath(tree, [])
    ensures AllClear(rules, entries, tree)
  {
    forall i | 0 <= i < |entries| ensures Clear(tree, rules.keys(entries[i].name)) {
      var parent := rules.keys(entries[i].name)[..|rules.keys(entries[i].name)| - 1];
      forall n | 0 <= n <= |parent| && parent[..n] in tree ensures tree[parent[..n]] == Dir {
        assert parent[..n] == [];
        assert EMPTY[..0] == [];
      }
    }
  }

  lemma NamesConcat(a: seq<Entry>, b: seq<Entry>)
    ensures Names(a + b) == Names(a) + Names(b)
  {
  }

  lemma NamesRemove(b: seq<Entry>, j: nat)
    requires j < |b|
    ensures multiset(Names(b)) == multiset{b[j].name} + multiset(Names(b[..j] + b[j + 1..]))
    ensures multiset(b) == multiset{b[j]} + multiset(b[..j] + b[j + 1..])
  {
    var left, right := b[..j], b[j + 1..];
    assert b == left + ([b[j]] + right);
    NamesConcat(left, [b[j]] + right);
    NamesConcat([b[j]], right);
    NamesConcat(left, right);
    assert Names([b[j]]) == [b[j].name];
  }

  lemma NamesStep(a: seq<Entry>, b: seq<Entry>, j: nat)
    requires multiset(a) == multiset(b) && a != [] && j < |b| && b[j] == a[0]
    ensures var a', b' := a[..0] + a[1..], b[..j] + b[j + 1..];
            && multiset(a') == multiset(b')
            && (multiset(Names(a')) == multiset(Names(b')) ==> multiset(Names(a)) == multiset(Names(b)))
  {
    NamesRemove(a, 0);
    NamesRemove(b, j);
    Cancel(a[0], multiset(a[..0] + a[1..]), multiset(b[..j] + b[j + 1..]));
  }

  lemma {:induction false} NamesPermute(a: seq<Entry>, b: seq<Entry>)
    requires multiset(a) == multiset(b)
    ensures multiset(Names(a)) == multiset(Names(b))
    decreases |a|
  {
    assert |multiset(a)| == |a| && |multiset(b)| == |b|;
    if a != [] {
      assert a[0] in multiset(a) && a[0] in multiset(b);
      var j :| 0 <= j < |b| && b[j] == a[0];
      NamesStep(a, b, j);
      NamesPermute(a[..0] + a[1..], b[..j] + b[j + 1..]);
    }
  }

  lemma {:induction false} DeclaredConcat(a: seq<Entry>, b: seq<Entry>)
    ensures Declared(a + b) == Declared(a) + Declared(b)
  {
    if b == [] {
      assert a + b == a;
    } else {
      assert (a + b)[..|a + b| - 1] == a + b[..|b| - 1];
      DeclaredConcat(a, b[..|b| - 1]);
    }
  }

  lemma DeclaredMiddle(left: seq<Entry>, e: Entry, right: seq<Entry>)
    ensures Declared(left + [e] + right) == Declared(left + right) + e.size
  {
    DeclaredConcat(left + [e], right);
    DeclaredConcat(left, right);
    assert (left + [e])[..|left|] == left;
  }

  lemma DeclaredRemove(b: seq<Entry>, j: nat)
    requires j < |b|
    ensures Declared(b) == Declared(b[..j] + b[j + 1..]) + b[j].size
  {
    SplitAt(b, j);
    DeclaredMiddle(b[..j], b[j], b[j + 1..]);
  }

  lemma {:induction false} DeclaredPermute(a: seq<Entry>, b: seq<Entry>)
    requires multiset(a) == multiset(b)
    ensures Declared(a) == Declared(b)
    decreases |a|
  {
    assert |multiset(a)| == |a| && |multiset(b)| == |b|;
    if a != [] {
      assert a[0] in multiset(a) && a[0] in multiset(b);
      var j :| 0 <= j < |b| && b[j] == a[0];
      NamesStep(a, b, j);
      DeclaredRemove(a, 0);
      DeclaredRemove(b, j);
      DeclaredPermute(a[..0] + a[1..], b[..j] + b[j + 1..]);
    }
  }

  lemma SameEntries(a: seq<Entry>, b: seq<Entry>)
    requires multiset(a) == multiset(b)
    ensures |a| == |b| && forall e :: e in a <==> e in b
  {
    assert |multiset(a)| == |a| && |multiset(b)| == |b|;
    forall e ensures e in a <==> e in b {
      assert e in multiset(a) <==> e in multiset(b);
    }
  }

  /** The same archive up to the order of its entries and the reads of its tail. */
  ghost predicate SameParts(a: Archive, b: Archive) {
    multiset(a.entries) == multiset(b.entries) && a.terminated == b.terminated && a.ended == b.ended
    && Sum(a.tail) == Sum(b.tail)
  }

  /** The limits do not see the order of the entries, nor how the tail is split into reads. */
  lemma LimitsPermute(rules: Rules, opts: Options, a: Archive, b: Archive)
    requires SameParts(a, b)
    requires InLimits(rules, opts, a)
    ensures InLimits(rules, opts, b)
    ensures |a.entries| == |b.entries| && Declared(a.entries) == Declared(b.entries)
  {
    SameEntries(a.entries, b.entries);
    DeclaredPermute(a.entries, b.entries);
    forall i | 0 <= i < |b.entries| ensures EntryInLimits(rules, opts, b.entries[i]) {
      assert b.entries[i] in b.entries && b.entries[i] in a.entries;
      var j :| 0 <= j < |a.entries| && a.entries[j] == b.entries[i];
    }
  }

  lemma ClearPermute(rules: Rules, a: seq<Entry>, b: seq<Entry>, tree: Tree)
    requires Sensible(rules) && multiset(a) == multiset(b) && AllClear(rules, a, tree)
    ensures AllClear(rules, b, tree)
  {
    SameEntries(a, b);
    forall i | 0 <= i < |b| ensures Clear(tree, rules.keys(b[i].name)) {
      assert b[i] in b && b[i] in a;
      var j :| 0 <= j < |a| && a[j] == b[i];
    }
  }

  lemma OnTheWayPermute(rules: Rules, a: seq<Entry>, b: seq<Entry>, q: seq<string>)
    requires multiset(a) == multiset(b) && OnTheWay(rules, Names(a), q)
    ensures OnTheWay(rules, Names(b), q)
  {
    SameEntries(a, b);
    var i :| 0 <= i < |Names(a)| && q <= rules.keys(Names(a)[i]);
    assert a[i] in a && a[i] in b;
    var j :| 0 <= j < |b| && b[j] == a[i];
    assert q <= rules.keys(Names(b)[j]);
  }

  lemma FindEntry(a: seq<Entry>, b: seq<Entry>, e: Entry) returns (j: nat)
    requires multiset(a) == multiset(b) && e in a
    ensures j < |b| && b[j] == e
  {
    SameEntries(a, b);
    j :| 0 <= j < |b| && b[j] == e;
  }

  /** Without collisions, an entry is the one stored at its own keys. */
  lemma OnlyStored(rules: Rules, b: seq<Entry>, j: nat)
    requires CollisionFree(rules, Names(b)) && j < |b|
    ensures StoredAt(rules, b, rules.keys(b[j].name)) == j
  {
    var i := StoredAt(rules, b, rules.keys(b[j].name));
    assert i <= j;
    assert i < j ==> !Collide(rules, Names(b)[i], Names(b)[j]);
  }

  /** What is stored at q is the same entry in either order. */
  lemma StoredPermute(rules: Rules, a: seq<Entry>, b: seq<Entry>, q: seq<string>)
    requires multiset(a) == multiset(b) && CollisionFree(rules, Names(b))
    requires StoredAt(rules, a, q) < |a|
    ensures StoredAt(rules, b, q) < |b| && b[StoredAt(rules, b, q)] == a[StoredAt(rules, a, q)]
  {
    var e := a[StoredAt(rules, a, q)];
    var j := FindEntry(a, b, e);
    OnlyStored(rules, b, j);
  }

  lemma GrownPermute(rules: Rules, a: seq<Entry>, b: seq<Entry>, tree: Tree, afterA: Tree, afterB: Tree, q: seq<string>)
    requires multiset(a) == multiset(b) && CollisionFree(rules, Names(a)) && CollisionFree(rules, Names(b))
    requires Complete(a) && Complete(b)
    requires GrownAt(rules, a, tree, afterA, q) && GrownAt(rules, b, tree, afterB, q)
    ensures q in afterA <==> q in afterB
    ensures q in afterA ==> afterA[q] == afterB[q]
  {
    if OnTheWay(rules, Names(a), q) { OnTheWayPermute(rules, a, b, q); }
    if OnTheWay(rules, Names(b), q) { OnTheWayPermute(rules, b, a, q); }
    if StoredAt(rules, a, q) < |a| {
      StoredPermute(rules, a, b, q);
    } else if StoredAt(rules, b, q) < |b| {
      StoredPermute(rules, b, a, q);
    }
  }

  lemma SizesPermute(a: seq<Entry>, b: seq<Entry>)
    requires multiset(a) == multiset(b) && SizesFromTar(a)
    ensures SizesFromTar(b)
  {
    SameEntries(a, b);
    forall i | 0 <= i < |b| ensures 0 <= b[i].size {
      assert b[i] in b && b[i] in a;
      var j :| 0 <= j < |a| && a[j] == b[i];
    }
  }

  lemma ChecksMeaning(rules: Rules, opts: Options, a: Archive)
    requires LimitsFit(opts) && SizesFromTar(a.entries)
    ensures ChecksFrom(rules, opts, a, 0).Ok? <==> InLimits(rules, opts, a)
    ensures ChecksFrom(rules, opts, a, 0).Ok? ==>
              ChecksFrom(rules, opts, a, 0) == Ok(Info(|a.entries|, Declared(a.entries) + Sum(a.tail)))
  {
    ScanAgreesWithExtract(rules, opts, a);
  }

  lemma ChecksPermute(rules: Rules, opts: Options, a: Archive, b: Archive)
    requires LimitsFit(opts) && SizesFromTar(a.entries) && SizesFromTar(b.entries)
    requires SameParts(a, b)
    requires ChecksFrom(rules, opts, a, 0).Ok?
    ensures ChecksFrom(rules, opts, a, 0) == ChecksFrom(rules, opts, b, 0)
  {
    ChecksMeaning(rules, opts, a);
    ChecksMeaning(rules, opts, b);
    LimitsPermute(rules, opts, a, b);
  }

  lemma OrderOneWay(rules: Rules, opts: Options, a: Archive, b: Archive, tree: Tree)
    requires Sensible(rules) && LimitsFit(opts) && SizesFromTar(a.entries) && SizesFromTar(b.entries)
    requires SameParts(a, b)
    requires Extracted(rules, opts, false, a, tree).0.Ok?
    ensures Extracted(rules, opts, false, b, tree).0.Ok?
    ensures ChecksFrom(rules, opts, a, 0) == ChecksFrom(rules, opts, b, 0)
  {
    ExtractionSucceedsExactly(rules, opts, a, tree);
    ExtractionSucceedsExactly(rules, opts, b, tree);
    ChecksPermute(rules, opts, a, b);
    NamesPermute(a.entries, b.entries);
    AcceptanceIgnoresOrder(rules, Names(a.entries), Names(b.entries));
    ClearPermute(rules, a.entries, b.entries, tree);
  }

  lemma OrderSameTree(rules: Rules, opts: Options, a: Archive, b: Archive, tree: Tree)
    requires Sensible(rules) && multiset(a.entries) == multiset(b.entries)
    requires Extracted(rules, opts, false, a, tree).0.Ok? && Extracted(rules, opts, false, b, tree).0.Ok?
    requires ChecksFrom(rules, opts, a, 0) == ChecksFrom(rules, opts, b, 0)
    ensures Extracted(rules, opts, false, a, tree) == Extracted(rules, opts, false, b, tree)
  {
    ExtractionSucceedsExactly(rules, opts, a, tree);
    ExtractionSucceedsExactly(rules, opts, b, tree);
    AcceptsExactly(rules, Names(a.entries));
    AcceptsExactly(rules, Names(b.entries));
    var afterA, afterB := Extracted(rules, opts, false, a, tree).1, Extracted(rules, opts, false, b, tree).1;
    forall q ensures (q in afterA <==> q in afterB) && (q in afterA ==> afterA[q] == afterB[q]) {
      assert GrownAt(rules, a.entries, tree, afterA, q) && GrownAt(rules, b.entries, tree, afterB, q);
      GrownPermute(rules, a.entries, b.entries, tree, afterA, afterB, q);
    }
    assert afterA == afterB;
    var ra, rb := Extracted(rules, opts, false, a, tree).0, Extracted(rules, opts, false, b, tree).0;
    assert ra.value == rb.value;
  }

  /** Without Overwrite, the order of the entries and the reads of the tail matter neither for
      whether an archive extracts into a destination, nor for what the destination then holds. */
  lemma OrderIrrelevant(rules: Rules, opts: Options, a: Archive, b: Archive, tree: Tree)
    requires Sensible(rules) && LimitsFit(opts) && SizesFromTar(a.entries)
    requires SameParts(a, b)
    ensures Extracted(rules, opts, false, a, tree).0.Ok? <==> Extracted(rules, opts, false, b, tree).0.Ok?
    ensures Extracted(rules, opts, false, a, tree).0.Ok? ==>
              Extracted(rules, opts, false, a, tree) == Extracted(rules, opts, false, b, tree)
  {
    SizesPermute(a.entries, b.entries);
    if Extracted(rules, opts, false, a, tree).0.Ok? {
      OrderOneWay(rules, opts, a, b, tree);
      OrderSameTree(rules, opts, a, b, tree);
    } else if Extracted(rules, opts, false, b, tree).0.Ok? {
      OrderOneWay(rules, opts, b, a, tree);
    }
  }
}
