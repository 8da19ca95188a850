/** Global path-collision check (spec/paths.go): a mutable trie of folded segments that must
    agree with comparing every path with every earlier one. */
module PathTrie {
  import opened Prelude
  import opened BundlePath

  /** What the collision check knows about paths: the syntax check, and the key sequence under
      which the trie files a path. */
  datatype Rules = Rules(fault: string -> Option<Fault>, keys: string -> seq<string>)

  /** No path has an empty key sequence, and the empty path is invalid. */
  ghost predicate Sensible(rules: Rules) {
    rules.fault("").Some? && forall p :: rules.keys(p) != []
  }

  /** Rules of the program: bundle-path syntax, and segments folded to one case. */
  function BundleRules(fold: string -> string): Rules {
    Rules((path: string) => PathFault(path), (path: string) => Keys(fold, path))
  }

  datatype Kind = Ancestor | CaseInsensitive | Descendant

  /** The outcome of ValidateBundlePaths with the data its errors carry. */
  datatype Verdict =
    | Accepted
    | Invalid(path: string, fault: Fault)
    | Duplicate(path: string)
    | Collision(path: string, original: string, kind: Kind)

  /** Two paths collide when one names an ancestor of, or the same node as, the other. */
  predicate Collide(rules: Rules, a: string, b: string) {
    rules.keys(a) <= rules.keys(b) || rules.keys(b) <= rules.keys(a)
  }

  ghost predicate CollisionFree(rules: Rules, paths: seq<string>) {
    forall i, j :: 0 <= i < j < |paths| ==> !Collide(rules, paths[i], paths[j])
  }

  ghost predicate AllValid(rules: Rules, paths: seq<string>) {
    forall i :: 0 <= i < |paths| ==> rules.fault(paths[i]).None?
  }

  ghost predicate Acceptable(rules: Rules, paths: seq<string>) {
    AllValid(rules, paths) && CollisionFree(rules, paths)
  }

  /** How the later path collides with the earlier one. */
  function Describe(rules: Rules, path: string, original: string): Verdict {
    if path == original then Duplicate(path)
    else if rules.keys(path) == rules.keys(original) then Collision(path, original, CaseInsensitive)
    else if rules.keys(original) <= rules.keys(path) then Collision(path, original, Ancestor)
    else Collision(path, original, Descendant)
  }

  /** First path among earlier that collides with path, or |earlier|. */
  function FirstClash(rules: Rules, earlier: seq<string>, path: string): (j: nat)
    ensures j <= |earlier|
    ensures forall i :: 0 <= i < j ==> !Collide(rules, earlier[i], path)
    ensures j < |earlier| ==> Collide(rules, earlier[j], path)
  {
    if earlier == [] || Collide(rules, earlier[0], path) then 0
    else 1 + FirstClash(rules, earlier[1..], path)
  }

  /** The quadratic pairwise test, path by path: validity first, then every earlier path. */
  function Check(rules: Rules, paths: seq<string>, k: nat): Verdict
    requires k <= |paths|
    decreases |paths| - k
  {
    if k == |paths| then Accepted
    else if rules.fault(paths[k]).Some? then Invalid(paths[k], rules.fault(paths[k]).value)
    else
      var j := FirstClash(rules, paths[..k], paths[k]);
      if j < k then Describe(rules, paths[k], paths[j]) else Check(rules, paths, k + 1)
  }

  lemma PrefixesCompare<T>(a: seq<T>, b: seq<T>, p: seq<T>)
    requires a <= p && b <= p
    ensures a <= b || b <= a
  {
    assert a == p[..|a|] && b == p[..|b|];
  }

  /** At most one earlier path of a collision-free list lies at or above a given path, and
      then none lies below it. */
  lemma UniqueAbove(rules: Rules, earlier: seq<string>, path: string, j: nat)
    requires CollisionFree(rules, earlier) && j < |earlier|
    requires rules.keys(earlier[j]) <= rules.keys(path)
    ensures FirstClash(rules, earlier, path) == j
  {
    var i := FirstClash(rules, earlier, path);
    assert Collide(rules, earlier[j], path);
    assert i <= j;
    if i < j {
      assert !Collide(rules, earlier[i], earlier[j]);
      var a, b, p := rules.keys(earlier[i]), rules.keys(earlier[j]), rules.keys(path);
      if a <= p { PrefixesCompare(a, b, p); }
    }
  }

  /** One node of the trie. */
  class BundlePathNode {
    var children: map<string, BundlePathNode>
    var path: string
    var anyPath: string
    ghost const key: seq<string>

    constructor (anyPath: string, ghost key: seq<string>)
      ensures children == map[] && path == "" && this.anyPath == anyPath && this.key == key
    {
      this.children, this.path, this.anyPath, this.key := map[], "", anyPath, key;
    }
  }

  /** The nodes form a trie rooted at at[[]]: at names every node by its key sequence. */
  ghost predicate Shape(at: map<seq<string>, BundlePathNode>)
    reads at.Values
  {
    && [] in at
    && (forall q :: q in at ==> at[q].key == q)
    && (forall q, s {:trigger q + [s]} :: q + [s] in at ==> q in at)
    && (forall q, s {:trigger s in at[q].children} ::
          q in at && s in at[q].children ==> q + [s] in at)
    && (forall q, s {:trigger q + [s]} ::
          q in at && q + [s] in at ==> s in at[q].children && at[q].children[s] == at[q + [s]])
  }

  /** q lies on the way to one of the paths. */
  ghost predicate OnTheWay(rules: Rules, paths: seq<string>, q: seq<string>) {
    exists j :: 0 <= j < |paths| && q <= rules.keys(paths[j])
  }

  /** The first path whose way leads through q. */
  ghost function FirstThrough(rules: Rules, paths: seq<string>, q: seq<string>): string
    requires OnTheWay(rules, paths, q)
  {
    if q <= rules.keys(paths[0]) then paths[0]
    else
      assert OnTheWay(rules, paths[1..], q) by {
        var j :| 0 <= j < |paths| && q <= rules.keys(paths[j]);
        assert paths[1..][j - 1] == paths[j];
      }
      FirstThrough(rules, paths[1..], q)
  }

  lemma {:induction false} FirstThroughAppend(rules: Rules, paths: seq<string>, p: string, q: seq<string>)
    requires OnTheWay(rules, paths, q) || q <= rules.keys(p)
    ensures OnTheWay(rules, paths + [p], q)
    ensures FirstThrough(rules, paths + [p], q) ==
            if OnTheWay(rules, paths, q) then FirstThrough(rules, paths, q) else p
  {
    var all := paths + [p];
    if paths == [] {
      assert all[0] == p;
      assert OnTheWay(rules, all, q);
    } else {
      if OnTheWay(rules, paths, q) {
        var j :| 0 <= j < |paths| && q <= rules.keys(paths[j]);
        assert all[j] == paths[j];
      } else {
        assert all[|paths|] == p;
      }
      assert OnTheWay(rules, all, q);
      if q <= rules.keys(paths[0]) {
      } else {
        assert all[1..] == paths[1..] + [p];
        if OnTheWay(rules, paths, q) {
          var j :| 0 <= j < |paths| && q <= rules.keys(paths[j]);
          assert paths[1..][j - 1] == paths[j];
        }
        FirstThroughAppend(rules, paths[1..], p, q);
        if OnTheWay(rules, paths[1..], q) {
          var j :| 0 <= j < |paths[1..]| && q <= rules.keys(paths[1..][j]);
          assert paths[j + 1] == paths[1..][j];
        }
      }
    }
  }

  /** A path that passes through q and collides with none before it in the list is found by
      the search for the first clash. */
  lemma {:induction false} FirstThroughIsFirstClash(rules: Rules, paths: seq<string>, p: string)
    requires OnTheWay(rules, paths, rules.keys(p))
    requires forall j :: 0 <= j < |paths| ==> !(rules.keys(paths[j]) <= rules.keys(p))
    ensures FirstClash(rules, paths, p) < |paths|
    ensures paths[FirstClash(rules, paths, p)] == FirstThrough(rules, paths, rules.keys(p))
  {
    var q := rules.keys(p);
    if q <= rules.keys(paths[0]) {
    } else {
      var j :| 0 <= j < |paths| && q <= rules.keys(paths[j]);
      assert paths[1..][j - 1] == paths[j];
      forall i | 0 <= i < |paths[1..]| ensures !(rules.keys(paths[1..][i]) <= q) {
        assert paths[1..][i] == paths[i + 1];
      }
      FirstThroughIsFirstClash(rules, paths[1..], p);
    }
  }

  /** What a node says, apart from its children: the path that ends there, or "", and the
      path that created it. */
  datatype Mark = Mark(ends: string, any: string)

  type Marks = map<seq<string>, Mark>

  ghost function MarksOf(at: map<seq<string>, BundlePathNode>): Marks
    reads at.Values
  {
    map q | q in at :: Mark(at[q].path, at[q].anyPath)
  }

  /** Each path ends at its own node. */
  ghost predicate Stored(rules: Rules, paths: seq<string>, m: Marks) {
    forall j :: 0 <= j < |paths| ==>
      rules.keys(paths[j]) in m && m[rules.keys(paths[j])].ends == paths[j]
  }

  /** Only paths of the list end at a node. */
  ghost predicate Backed(rules: Rules, paths: seq<string>, m: Marks) {
    forall q :: q in m && m[q].ends != "" ==> exists j :: 0 <= j < |paths| && rules.keys(paths[j]) == q
  }

  /** The nodes are the root and every node on the way to a path. */
  ghost predicate Spans(rules: Rules, paths: seq<string>, m: Marks) {
    forall q :: q in m <==> q == [] || OnTheWay(rules, paths, q)
  }

  /** Every node on the way to a path is marked with the first path through it. */
  ghost predicate Marked(rules: Rules, paths: seq<string>, m: Marks) {
    forall q :: q in m && q != [] && OnTheWay(rules, paths, q) ==>
      m[q].any == FirstThrough(rules, paths, q)
  }

  /** A path that ends at or above the node of the current one is its one collision. */
  lemma AboveVerdict(rules: Rules, paths: seq<string>, k: nat, i: nat, m: Marks)
    requires k < |paths| && i <= |rules.keys(paths[k])|
    requires rules.fault(paths[k]).None? && CollisionFree(rules, paths[..k])
    requires Stored(rules, paths[..k], m) && Backed(rules, paths[..k], m)
    requires rules.keys(paths[k])[..i] in m && m[rules.keys(paths[k])[..i]].ends != ""
    ensures var original := m[rules.keys(paths[k])[..i]].ends;
            Check(rules, paths, k) ==
            if i < |rules.keys(paths[k])| then Collision(paths[k], original, Ancestor)
            else if original == paths[k] then Duplicate(paths[k])
            else Collision(paths[k], original, CaseInsensitive)
  {
    var done, keys := paths[..k], rules.keys(paths[k]);
    var j :| 0 <= j < |done| && rules.keys(done[j]) == keys[..i];
    UniqueAbove(rules, done, paths[k], j);
    assert m[rules.keys(done[j])].ends == done[j];
    if i < |keys| { assert done[j] != paths[k]; }
  }

  lemma PrefixSlice<T>(a: seq<T>, b: seq<T>)
    ensures a <= b ==> a == b[..|a|]
  {
  }

  lemma WayUp(rules: Rules, paths: seq<string>, q: seq<string>, s: string)
    ensures OnTheWay(rules, paths, q + [s]) ==> OnTheWay(rules, paths, q)
  {
    if OnTheWay(rules, paths, q + [s]) {
      var j :| 0 <= j < |paths| && q + [s] <= rules.keys(paths[j]);
      assert q <= rules.keys(paths[j]);
    }
  }

  /** A node that a path passes through has children. */
  lemma PassedHasChildren(rules: Rules, paths: seq<string>, keys: seq<string>,
                          at: map<seq<string>, BundlePathNode>)
    requires keys in at && Shape(at)
    requires forall q :: OnTheWay(rules, paths, q) ==> q in at
    requires forall j :: 0 <= j < |paths| ==> !(rules.keys(paths[j]) <= keys)
    requires OnTheWay(rules, paths, keys)
    ensures at[keys].children != map[]
  {
    var j :| 0 <= j < |paths| && keys <= rules.keys(paths[j]);
    var s := rules.keys(paths[j])[|keys|];
    assert keys + [s] <= rules.keys(paths[j]);
    assert OnTheWay(rules, paths, keys + [s]);
    assert s in at[keys].children;
  }

  /** The node at the end of a new path has no children. */
  lemma FreshHasNone(rules: Rules, paths: seq<string>, keys: seq<string>,
                     at: map<seq<string>, BundlePathNode>)
    requires keys in at && Shape(at)
    requires forall q :: q in at ==> |q| <= |keys| || OnTheWay(rules, paths, q)
    requires !OnTheWay(rules, paths, keys)
    ensures at[keys].children == map[]
  {
    forall s ensures s !in at[keys].children {
      WayUp(rules, paths, keys, s);
      assert s in at[keys].children ==> keys + [s] in at;
    }
  }

  /** With no earlier path at or above it, a path clashes exactly when its node was passed
      through, and then first with the path that is marked there. */
  lemma ClashBelow(rules: Rules, paths: seq<string>, k: nat)
    requires k < |paths| && rules.fault(paths[k]).None?
    requires forall j :: 0 <= j < k ==> !(rules.keys(paths[..k][j]) <= rules.keys(paths[k]))
    ensures OnTheWay(rules, paths[..k], rules.keys(paths[k])) ==>
              Check(rules, paths, k) ==
              Collision(paths[k], FirstThrough(rules, paths[..k], rules.keys(paths[k])), Descendant)
    ensures !OnTheWay(rules, paths[..k], rules.keys(paths[k])) ==>
              FirstClash(rules, paths[..k], paths[k]) == k
  {
    var done, keys := paths[..k], rules.keys(paths[k]);
    if OnTheWay(rules, done, keys) {
      FirstThroughIsFirstClash(rules, done, paths[k]);
    } else {
      forall j | 0 <= j < k ensures !Collide(rules, done[j], paths[k]) {
        assert !(keys <= rules.keys(done[j]));
      }
    }
  }

  lemma {:induction false} FirstThroughNonEmpty(rules: Rules, paths: seq<string>, q: seq<string>)
    requires forall j :: 0 <= j < |paths| ==> paths[j] != ""
    requires OnTheWay(rules, paths, q)
    ensures FirstThrough(rules, paths, q) != ""
  {
    if !(q <= rules.keys(paths[0])) {
      var j :| 0 <= j < |paths| && q <= rules.keys(paths[j]);
      assert paths[1..][j - 1] == paths[j];
      FirstThroughNonEmpty(rules, paths[1..], q);
    }
  }

  lemma {:induction false} OnTheWayAppend(rules: Rules, paths: seq<string>, p: string, q: seq<string>)
    ensures OnTheWay(rules, paths + [p], q) <==> OnTheWay(rules, paths, q) || q <= rules.keys(p)
  {
    if OnTheWay(rules, paths + [p], q) {
      var j :| 0 <= j < |paths + [p]| && q <= rules.keys((paths + [p])[j]);
      if j < |paths| { assert q <= rules.keys(paths[j]); }
    }
    if OnTheWay(rules, paths, q) || q <= rules.keys(p) { FirstThroughAppend(rules, paths, p, q); }
  }

  lemma LastKey<T>(r: seq<T>, s: T, q: seq<T>, k: T)
    requires r + [s] == q + [k]
    ensures r == q && s == k
  {
    assert (r + [s])[..|r|] == r && (r + [s])[|r|] == s;
    assert (q + [k])[..|q|] == q && (q + [k])[|q|] == k;
  }

  /** The child of node under key, created on first use with path as its mark. */
  method Child(node: BundlePathNode, key: string, path: string,
               ghost at: map<seq<string>, BundlePathNode>, ghost q: seq<string>)
    returns (child: BundlePathNode, ghost after: map<seq<string>, BundlePathNode>)
    requires Shape(at) && q in at && at[q] == node
    modifies node`children
    ensures Shape(after) && q + [key] in after && after[q + [key]] == child
    ensures q + [key] in at ==> after == at
    ensures q + [key] !in at ==> after == at[q + [key] := child] && fresh(child)
                                 && child.path == "" && child.anyPath == path
  {
    after := at;
    assert key in node.children <==> q + [key] in at;
    if key !in node.children {
      child := new BundlePathNode(path, q + [key]);
      node.children := node.children[key := child];
      after := at[q + [key] := child];
      forall r, s | r + [s] in after ensures r in after {
        if r + [s] == q + [key] { LastKey(r, s, q, key); }
      }
      forall r, s | r in after ensures s in after[r].children <==> r + [s] in after {
        if r + [s] == q + [key] { LastKey(r, s, q, key); }
        if r == q + [key] { assert r + [s] in at ==> r in at; }
      }
      forall r, s | r in after && s in after[r].children
        ensures after[r].children[s] == after[r + [s]]
      {
        if r + [s] == q + [key] { LastKey(r, s, q, key); }
      }
    } else {
      child := node.children[key];
    }
  }

  /** The node q is created for path p unless it exists. */
  ghost function Visit(m: Marks, q: seq<string>, p: string): Marks {
    if q in m then m else m[q := Mark("", p)]
  }

  /** The marks after the first n nodes of keys were visited for path p. */
  ghost function Way(m: Marks, keys: seq<string>, p: string, n: nat): Marks
    requires n <= |keys|
  {
    if n == 0 then m else Visit(Way(m, keys, p, n - 1), keys[..n], p)
  }

  /** Path p ends at the node keys. */
  ghost function End(m: Marks, keys: seq<string>, p: string): Marks {
    m[keys := Mark(p, if keys in m && m[keys].any != "" then m[keys].any else p)]
  }

  /** The marks of the trie into which paths were inserted one by one. */
  ghost function TrieOf(rules: Rules, paths: seq<string>): Marks
    decreases |paths|
  {
    if paths == [] then map[[] := Mark("", "")]
    else
      var p := paths[|paths| - 1];
      End(Way(TrieOf(rules, paths[..|paths| - 1]), rules.keys(p), p, |rules.keys(p)|), rules.keys(p), p)
  }

  lemma TrieOfNext(rules: Rules, paths: seq<string>, k: nat)
    requires k < |paths|
    ensures TrieOf(rules, paths[..k + 1]) ==
            End(Way(TrieOf(rules, paths[..k]), rules.keys(paths[k]), paths[k], |rules.keys(paths[k])|),
                rules.keys(paths[k]), paths[k])
  {
    assert paths[..k + 1][..k] == paths[..k];
  }

  /** Visiting the way to p adds its nodes, with no path ending there and p as their mark. */
  lemma {:induction false} WayAdds(m: Marks, keys: seq<string>, p: string, n: nat, q: seq<string>)
    requires n <= |keys|
    ensures var w := Way(m, keys, p, n);
            && (q in w <==> q in m || (0 < |q| <= n && q == keys[..|q|]))
            && (q in w ==>
                  && w[q].ends == (if q in m then m[q].ends else "")
                  && w[q].any == (if q in m then m[q].any else p))
  {
    if n > 0 {
      WayAdds(m, keys, p, n - 1, q);
      WayAdds(m, keys, p, n - 1, keys[..n]);
    }
  }

  lemma {:induction false} TrieSpans(rules: Rules, paths: seq<string>)
    requires Sensible(rules)
    ensures Spans(rules, paths, TrieOf(rules, paths))
    decreases |paths|
  {
    if paths == [] {
      forall q ensures !OnTheWay(rules, paths, q) {}
    } else {
      var n := |paths| - 1;
      var p, keys := paths[n], rules.keys(paths[n]);
      assert paths == paths[..n] + [p];
      TrieSpans(rules, paths[..n]);
      assert keys[..|keys|] == keys;
      WayAdds(TrieOf(rules, paths[..n]), keys, p, |keys|, keys);
      forall q ensures q in TrieOf(rules, paths) <==> q == [] || OnTheWay(rules, paths, q) {
        WayAdds(TrieOf(rules, paths[..n]), keys, p, |keys|, q);
        OnTheWayAppend(rules, paths[..n], p, q);
        PrefixSlice(q, keys);
      }
    }
  }

  /** After one more path p, a path ends at q when it is p, or when one ended there before. */
  lemma EndsNext(rules: Rules, paths: seq<string>, p: string, q: seq<string>)
    requires Sensible(rules)
    ensures var old_, new_ := TrieOf(rules, paths), TrieOf(rules, paths + [p]);
            && (q in old_ ==> q in new_)
            && rules.keys(p) in new_
            && (q in new_ ==>
                  new_[q].ends == if q == rules.keys(p) then p else if q in old_ then old_[q].ends else "")
  {
    assert (paths + [p])[..|paths|] == paths;
    TrieSpans(rules, paths);
    WayAdds(TrieOf(rules, paths), rules.keys(p), p, |rules.keys(p)|, q);
  }

  lemma {:induction false} TrieStored(rules: Rules, paths: seq<string>)
    requires Sensible(rules) && CollisionFree(rules, paths)
    ensures Stored(rules, paths, TrieOf(rules, paths))
    decreases |paths|
  {
    if paths != [] {
      var n := |paths| - 1;
      assert paths == paths[..n] + [paths[n]];
      TrieStored(rules, paths[..n]);
      var m := TrieOf(rules, paths);
      forall j | 0 <= j < |paths|
        ensures rules.keys(paths[j]) in m && m[rules.keys(paths[j])].ends == paths[j]
      {
        EndsNext(rules, paths[..n], paths[n], rules.keys(paths[j]));
        if j < n {
          assert !Collide(rules, paths[j], paths[n]);
          assert paths[..n][j] == paths[j];
        }
      }
    }
  }

  lemma {:induction false} TrieBacked(rules: Rules, paths: seq<string>)
    requires Sensible(rules)
    ensures Backed(rules, paths, TrieOf(rules, paths))
    decreases |paths|
  {
    if paths != [] {
      var n := |paths| - 1;
      assert paths == paths[..n] + [paths[n]];
      TrieBacked(rules, paths[..n]);
      var m := TrieOf(rules, paths);
      forall q | q in m && m[q].ends != ""
        ensures exists j :: 0 <= j < |paths| && rules.keys(paths[j]) == q
      {
        EndsNext(rules, paths[..n], paths[n], q);
        if q == rules.keys(paths[n]) {
        } else {
          var j :| 0 <= j < n && rules.keys(paths[..n][j]) == q;
          assert rules.keys(paths[j]) == q;
        }
      }
    }
  }

  lemma {:induction false} TrieMarked(rules: Rules, paths: seq<string>)
    requires Sensible(rules) && AllValid(rules, paths)
    ensures Marked(rules, paths, TrieOf(rules, paths))
    decreases |paths|
  {
    if paths != [] {
      var n := |paths| - 1;
      var p, keys := paths[n], rules.keys(paths[n]);
      var before := TrieOf(rules, paths[..n]);
      assert paths == paths[..n] + [p];
      assert rules.fault(paths[n]).None?;
      forall j | 0 <= j < n ensures paths[..n][j] != "" { assert rules.fault(paths[j]).None?; }
      TrieMarked(rules, paths[..n]);
      TrieSpans(rules, paths[..n]);
      assert keys[..|keys|] == keys;
      forall q | q in TrieOf(rules, paths) && q != [] && OnTheWay(rules, paths, q)
        ensures TrieOf(rules, paths)[q].any == FirstThrough(rules, paths, q)
      {
        WayAdds(before, keys, p, |keys|, keys);
        WayAdds(before, keys, p, |keys|, q);
        OnTheWayAppend(rules, paths[..n], p, q);
        FirstThroughAppend(rules, paths[..n], p, q);
        if OnTheWay(rules, paths[..n], q) { FirstThroughNonEmpty(rules, paths[..n], q); }
      }
    }
  }

  /** One step down the trie. */
  method Advance(node: BundlePathNode, keys: seq<string>, i: nat, path: string,
                 ghost at: map<seq<string>, BundlePathNode>)
    returns (child: BundlePathNode, ghost after: map<seq<string>, BundlePathNode>)
    requires i < |keys| && Shape(at) && keys[..i] in at && at[keys[..i]] == node
    modifies node`children
    ensures Shape(after) && [] in after && after[[]] == at[[]]
    ensures keys[..i + 1] in after && after[keys[..i + 1]] == child
    ensures forall q :: q in after ==> q in at || fresh(after[q])
    ensures forall q :: q in at ==> q in after && after[q] == at[q]
    ensures MarksOf(after) == Visit(old(MarksOf(at)), keys[..i + 1], path)
  {
    assert keys[..i] + [keys[i]] == keys[..i + 1];
    child, after := Child(node, keys[i], path, at, keys[..i]);
  }

  /** The path ends at its node. */
  method Label(node: BundlePathNode, path: string,
               ghost keys: seq<string>, ghost at: map<seq<string>, BundlePathNode>)
    requires Shape(at) && keys in at && at[keys] == node
    modifies node`path, node`anyPath
    ensures Shape(at)
    ensures MarksOf(at) == End(old(MarksOf(at)), keys, path)
  {
    node.path := path;
    if node.anyPath == "" {
      node.anyPath := path;
    }
  }

  /** No path of the trie ends on the first n nodes of keys. */
  ghost predicate Passed(m: Marks, keys: seq<string>, n: nat)
    requires n <= |keys|
  {
    forall i :: 0 <= i < n && keys[..i] in m ==> m[keys[..i]].ends == ""
  }

  lemma StillPassed(rules: Rules, paths: seq<string>, k: nat, i: nat)
    requires Sensible(rules) && k < |paths| && i < |rules.keys(paths[k])|
    requires var trie, keys := TrieOf(rules, paths[..k]), rules.keys(paths[k]);
             && Passed(trie, keys, i)
             && keys[..i] in Way(trie, keys, paths[k], i)
             && Way(trie, keys, paths[k], i)[keys[..i]].ends == ""
    ensures Passed(TrieOf(rules, paths[..k]), rules.keys(paths[k]), i + 1)
  {
    TrieSpans(rules, paths[..k]);
    WayAdds(TrieOf(rules, paths[..k]), rules.keys(paths[k]), paths[k], i, rules.keys(paths[k])[..i]);
  }

  /** Follows the way to path k, creating missing nodes, and stops early at a node where an
      earlier path ends. */
  method Follow(rules: Rules, paths: seq<string>, k: nat, root: BundlePathNode,
                ghost start: map<seq<string>, BundlePathNode>)
    returns (node: BundlePathNode, depth: nat, ghost at: map<seq<string>, BundlePathNode>)
    requires Sensible(rules) && k < |paths| && rules.fault(paths[k]).None?
    requires Acceptable(rules, paths[..k])
    requires Shape(start) && start[[]] == root && MarksOf(start) == TrieOf(rules, paths[..k])
    modifies start.Values
    ensures forall q :: q in at ==> (q in start && at[q] == start[q]) || fresh(at[q])
    ensures Shape(at) && at[[]] == root
    ensures depth <= |rules.keys(paths[k])| && rules.keys(paths[k])[..depth] in at
    ensures node == at[rules.keys(paths[k])[..depth]]
    ensures MarksOf(at) == Way(TrieOf(rules, paths[..k]), rules.keys(paths[k]), paths[k], depth)
    ensures Passed(TrieOf(rules, paths[..k]), rules.keys(paths[k]), depth)
    ensures depth < |rules.keys(paths[k])| ==> node.path != ""
  {
    var path, keys := paths[k], rules.keys(paths[k]);
    node, at, depth := root, start, 0;
    while depth < |keys|
      invariant depth <= |keys|
      invariant forall q :: q in at ==> (q in start && at[q] == start[q]) || fresh(at[q])
      invariant Shape(at) && at[[]] == root
      invariant MarksOf(at) == Way(TrieOf(rules, paths[..k]), keys, path, depth)
      invariant keys[..depth] in at && node == at[keys[..depth]]
      invariant Passed(TrieOf(rules, paths[..k]), keys, depth)
    {
      assert node.path == MarksOf(at)[keys[..depth]].ends;
      if node.path != "" {
        return;
      }
      StillPassed(rules, paths, k, depth);
      node, at := Advance(node, keys, depth, path, at);
      depth := depth + 1;
    }
  }

  /** On the way to a path, the nodes say whether an earlier path lies at or above it. */
  lemma Decision(rules: Rules, paths: seq<string>, k: nat, i: nat)
    requires Sensible(rules)
    requires k < |paths| && rules.fault(paths[k]).None? && Acceptable(rules, paths[..k])
    requires i <= |rules.keys(paths[k])|
    ensures var m := Way(TrieOf(rules, paths[..k]), rules.keys(paths[k]), paths[k], i);
            && rules.keys(paths[k])[..i] in m
            && (m[rules.keys(paths[k])[..i]].ends != "" ==>
                  Check(rules, paths, k) ==
                  if i < |rules.keys(paths[k])|
                  then Collision(paths[k], m[rules.keys(paths[k])[..i]].ends, Ancestor)
                  else if m[rules.keys(paths[k])[..i]].ends == paths[k] then Duplicate(paths[k])
                  else Collision(paths[k], m[rules.keys(paths[k])[..i]].ends, CaseInsensitive))
  {
    var trie, keys := TrieOf(rules, paths[..k]), rules.keys(paths[k]);
    TrieSpans(rules, paths[..k]);
    WayAdds(trie, keys, paths[k], i, keys[..i]);
    var m := Way(trie, keys, paths[k], i);
    TrieStored(rules, paths[..k]);
    TrieBacked(rules, paths[..k]);
    if m[keys[..i]].ends != "" { AboveVerdict(rules, paths, k, i, trie); }
  }

  /** No path of the list lies at or above keys when none ends on the way there. */
  lemma NothingAbove(rules: Rules, paths: seq<string>, keys: seq<string>, m: Marks)
    requires forall j :: 0 <= j < |paths| ==> paths[j] != ""
    requires Stored(rules, paths, m) && Passed(m, keys, |keys|)
    requires keys in m ==> m[keys].ends == ""
    ensures forall j :: 0 <= j < |paths| ==> !(rules.keys(paths[j]) <= keys)
  {
    forall j | 0 <= j < |paths| ensures !(rules.keys(paths[j]) <= keys) {
      var above := rules.keys(paths[j]);
      PrefixSlice(above, keys);
      assert m[above].ends != "" && keys[..|keys|] == keys;
      if |above| < |keys| { assert keys[..|above|] in m ==> m[keys[..|above|]].ends == ""; }
    }
  }

  lemma LastAbove(rules: Rules, paths: seq<string>, k: nat)
    requires Sensible(rules) && k < |paths| && Acceptable(rules, paths[..k])
    requires var trie, keys := TrieOf(rules, paths[..k]), rules.keys(paths[k]);
             && Passed(trie, keys, |keys|)
             && keys in Way(trie, keys, paths[k], |keys|)
             && Way(trie, keys, paths[k], |keys|)[keys].ends == ""
    ensures forall j :: 0 <= j < k ==> !(rules.keys(paths[..k][j]) <= rules.keys(paths[k]))
  {
    var trie, keys := TrieOf(rules, paths[..k]), rules.keys(paths[k]);
    forall j | 0 <= j < k ensures paths[..k][j] != "" { assert rules.fault(paths[..k][j]).None?; }
    TrieSpans(rules, paths[..k]);
    TrieStored(rules, paths[..k]);
    WayAdds(trie, keys, paths[k], |keys|, keys);
    NothingAbove(rules, paths[..k], keys, trie);
  }

  /** The mark at the end of a path's way: the first path through, if any. */
  lemma LastMark(rules: Rules, paths: seq<string>, k: nat)
    requires Sensible(rules) && k < |paths| && AllValid(rules, paths[..k])
    ensures var keys := rules.keys(paths[k]);
            var m := Way(TrieOf(rules, paths[..k]), keys, paths[k], |keys|);
            && keys in m
            && (OnTheWay(rules, paths[..k], keys) ==>
                  m[keys].any == FirstThrough(rules, paths[..k], keys) != "")
  {
    var done, keys := paths[..k], rules.keys(paths[k]);
    TrieSpans(rules, done);
    assert keys[..|keys|] == keys;
    WayAdds(TrieOf(rules, done), keys, paths[k], |keys|, keys);
    if OnTheWay(rules, done, keys) {
      TrieMarked(rules, done);
      forall j | 0 <= j < k ensures done[j] != "" { assert rules.fault(done[j]).None?; }
      FirstThroughNonEmpty(rules, done, keys);
    }
  }

  /** At the end of its way, the nodes beyond path k are those of earlier paths. */
  lemma LastNodes(rules: Rules, paths: seq<string>, k: nat, at: map<seq<string>, BundlePathNode>)
    requires Sensible(rules) && k < |paths| && Shape(at)
    requires var keys := rules.keys(paths[k]);
             MarksOf(at) == Way(TrieOf(rules, paths[..k]), keys, paths[k], |keys|)
    ensures forall q :: q in at ==> |q| <= |rules.keys(paths[k])| || OnTheWay(rules, paths[..k], q)
    ensures forall q :: OnTheWay(rules, paths[..k], q) ==> q in at
  {
    var done, keys := paths[..k], rules.keys(paths[k]);
    TrieSpans(rules, done);
    forall q
      ensures q in at ==> |q| <= |keys| || OnTheWay(rules, done, q)
      ensures OnTheWay(rules, done, q) ==> q in at
    {
      WayAdds(TrieOf(rules, done), keys, paths[k], |keys|, q);
      assert q in at <==> q in MarksOf(at);
    }
  }

  lemma NoClash(rules: Rules, paths: seq<string>, k: nat)
    requires k < |paths| && Acceptable(rules, paths[..k])
    requires rules.fault(paths[k]).None? && FirstClash(rules, paths[..k], paths[k]) == k
    ensures Acceptable(rules, paths[..k + 1]) && Check(rules, paths, k) == Check(rules, paths, k + 1)
  {
    assert paths[..k + 1] == paths[..k] + [paths[k]];
  }

  /** With nothing above it, the node of a path tells by its children and mark whether an
      earlier path lies below, and which. */
  lemma LastDecision(rules: Rules, paths: seq<string>, k: nat, at: map<seq<string>, BundlePathNode>)
    requires Sensible(rules)
    requires k < |paths| && rules.fault(paths[k]).None? && Acceptable(rules, paths[..k])
    requires Shape(at) && rules.keys(paths[k]) in at
    requires var keys := rules.keys(paths[k]);
             && MarksOf(at) == Way(TrieOf(rules, paths[..k]), keys, paths[k], |keys|)
             && Passed(TrieOf(rules, paths[..k]), keys, |keys|)
             && at[keys].path == MarksOf(at)[keys].ends == ""
    ensures var node := at[rules.keys(paths[k])];
            if node.anyPath != "" && node.children != map[]
            then Check(rules, paths, k) == Collision(paths[k], node.anyPath, Descendant)
            else Acceptable(rules, paths[..k + 1]) && Check(rules, paths, k) == Check(rules, paths, k + 1)
  {
    var done, keys := paths[..k], rules.keys(paths[k]);
    LastAbove(rules, paths, k);
    ClashBelow(rules, paths, k);
    LastNodes(rules, paths, k, at);
    LastMark(rules, paths, k);
    assert at[keys].anyPath == MarksOf(at)[keys].any;
    if OnTheWay(rules, done, keys) {
      PassedHasChildren(rules, done, keys, at);
    } else {
      FreshHasNone(rules, done, keys, at);
      NoClash(rules, paths, k);
    }
  }

  /** Inserts path k, or reports the earlier path it collides with. */
  method Add(rules: Rules, paths: seq<string>, k: nat, root: BundlePathNode,
             ghost start: map<seq<string>, BundlePathNode>)
    returns (clash: Option<Verdict>, ghost at: map<seq<string>, BundlePathNode>)
    requires Sensible(rules) && k < |paths| && rules.fault(paths[k]).None?
    requires Acceptable(rules, paths[..k])
    requires Shape(start) && start[[]] == root && MarksOf(start) == TrieOf(rules, paths[..k])
    modifies start.Values
    ensures forall q :: q in at ==> (q in start && at[q] == start[q]) || fresh(at[q])
    ensures clash.Some? ==> Check(rules, paths, k) == clash.value
    ensures clash.None? ==> Acceptable(rules, paths[..k + 1])
                            && Check(rules, paths, k) == Check(rules, paths, k + 1)
                            && Shape(at) && at[[]] == root
                            && MarksOf(at) == TrieOf(rules, paths[..k + 1])
  {
    var path := paths[k];
    var node, depth;
    node, depth, at := Follow(rules, paths, k, root, start);
    ghost var keys := rules.keys(path);
    assert node.path == MarksOf(at)[keys[..depth]].ends;
    Decision(rules, paths, k, depth);
    if depth < |rules.keys(path)| {
      return Some(Collision(path, node.path, Ancestor)), at;
    }
    assert keys[..depth] == keys;
    if node.path != "" {
      if node.path == path {
        return Some(Duplicate(path)), at;
      }
      return Some(Collision(path, node.path, CaseInsensitive)), at;
    }
    LastDecision(rules, paths, k, at);
    if node.anyPath != "" && node.children != map[] {
      return Some(Collision(path, node.anyPath, Descendant)), at;
    }
    TrieOfNext(rules, paths, k);
    Label(node, path, keys, at);
    return None, at;
  }

  /** ValidateBundlePaths. */
  method ValidateBundlePaths(rules: Rules, paths: seq<string>) returns (verdict: Verdict)
    requires Sensible(rules)
    ensures verdict == Check(rules, paths, 0)
  {
    var root := new BundlePathNode("", []);
    ghost var at: map<seq<string>, BundlePathNode> := map[[] := root];
    var k := 0;
    while k < |paths|
      invariant k <= |paths|
      invariant Acceptable(rules, paths[..k])
      invariant Check(rules, paths, 0) == Check(rules, paths, k)
      invariant forall q :: q in at ==> fresh(at[q])
      invariant Shape(at) && at[[]] == root && MarksOf(at) == TrieOf(rules, paths[..k])
    {
      var fault := rules.fault(paths[k]);
      if fault.Some? {
        return Invalid(paths[k], fault.value);
      }
      var clash;
      clash, at := Add(rules, paths, k, root, at);
      if clash.Some? {
        return clash.value;
      }
      k := k + 1;
    }
    return Accepted;
  }

  lemma {:induction false} AcceptsFrom(rules: Rules, paths: seq<string>, k: nat)
    requires k <= |paths| && Acceptable(rules, paths[..k])
    ensures Check(rules, paths, k) == Accepted <==> Acceptable(rules, paths)
    decreases |paths| - k
  {
    if k == |paths| {
      assert paths[..k] == paths;
    } else if rules.fault(paths[k]).None? {
      var j := FirstClash(rules, paths[..k], paths[k]);
      if j < k {
        assert Collide(rules, paths[j], paths[k]);
      } else {
        NoClash(rules, paths, k);
        AcceptsFrom(rules, paths, k + 1);
      }
    }
  }

  /** The check accepts a list exactly when every path is valid and no two collide. */
  lemma AcceptsExactly(rules: Rules, paths: seq<string>)
    ensures Check(rules, paths, 0) == Accepted <==> Acceptable(rules, paths)
  {
    assert paths[..0] == [];
    AcceptsFrom(rules, paths, 0);
  }

  /** What a rejection at position k says. */
  ghost predicate RejectedAt(rules: Rules, paths: seq<string>, k: nat, verdict: Verdict) {
    && k < |paths|
    && Acceptable(rules, paths[..k])
    && match verdict
       case Accepted => false
       case Invalid(path, fault) => path == paths[k] && rules.fault(path) == Some(fault)
       case Duplicate(path) => path == paths[k] && rules.fault(path).None? && path in paths[..k]
       case Collision(path, original, kind) =>
         && path == paths[k] && rules.fault(path).None?
         && original in paths[..k] && original != path
         && (forall other :: other in paths[..k] && Collide(rules, other, path) && kind != Descendant ==>
               other == original)
         && match kind
            case Ancestor => rules.keys(original) < rules.keys(path)
            case CaseInsensitive => rules.keys(original) == rules.keys(path)
            case Descendant => rules.keys(path) < rules.keys(original)
  }

  lemma OnlyAbove(rules: Rules, earlier: seq<string>, path: string, j: nat, i: nat)
    requires CollisionFree(rules, earlier) && j < |earlier| && i < |earlier|
    requires rules.keys(earlier[j]) <= rules.keys(path) && Collide(rules, earlier[i], path)
    ensures i == j
  {
    assert i < j ==> !Collide(rules, earlier[i], earlier[j]);
    assert j < i ==> !Collide(rules, earlier[j], earlier[i]);
    var a, b, p := rules.keys(earlier[i]), rules.keys(earlier[j]), rules.keys(path);
    if a <= p { PrefixesCompare(a, b, p); }
  }

  lemma {:induction false} RejectsFrom(rules: Rules, paths: seq<string>, k: nat) returns (at: nat)
    requires k <= |paths| && Acceptable(rules, paths[..k])
    requires Check(rules, paths, k) != Accepted
    ensures RejectedAt(rules, paths, at, Check(rules, paths, k))
    decreases |paths| - k
  {
    at := k;
    if rules.fault(paths[k]).None? {
      var j := FirstClash(rules, paths[..k], paths[k]);
      if j < k {
        assert paths[..k][j] == paths[j];
        forall other | other in paths[..k] && Collide(rules, other, paths[k])
                       && rules.keys(paths[j]) <= rules.keys(paths[k])
          ensures other == paths[j]
        {
          var i :| 0 <= i < k && paths[..k][i] == other;
          OnlyAbove(rules, paths[..k], paths[k], j, i);
        }
      } else {
        NoClash(rules, paths, k);
        at := RejectsFrom(rules, paths, k + 1);
      }
    }
  }

  /** A rejection names the first offending path; everything before it is acceptable, and the
      path it names as the original is an earlier one that collides in the reported way. */
  lemma RejectsTruthfully(rules: Rules, paths: seq<string>)
    requires Check(rules, paths, 0) != Accepted
    ensures exists k :: RejectedAt(rules, paths, k, Check(rules, paths, 0))
  {
    assert paths[..0] == [];
    var _ := RejectsFrom(rules, paths, 0);
  }

  /** Position of the first invalid path, or |paths|. */
  function FirstInvalid(rules: Rules, paths: seq<string>): (i: nat)
    ensures i <= |paths| && AllValid(rules, paths[..i])
    ensures i < |paths| ==> rules.fault(paths[i]).Some?
  {
    if paths == [] || rules.fault(paths[0]).Some? then 0
    else
      var i := FirstInvalid(rules, paths[1..]);
      assert paths[..i + 1] == [paths[0]] + paths[1..][..i];
      i + 1
  }

  /** The collision test alone, path by path. */
  function Collisions(rules: Rules, paths: seq<string>, k: nat): Verdict
    requires k <= |paths|
    decreases |paths| - k
  {
    if k == |paths| then Accepted
    else
      var j := FirstClash(rules, paths[..k], paths[k]);
      if j < k then Describe(rules, paths[k], paths[j]) else Collisions(rules, paths, k + 1)
  }

  /** The documented verdict: the first invalid path, wherever it is, before any collision. */
  function TwoPass(rules: Rules, paths: seq<string>): Verdict {
    var i := FirstInvalid(rules, paths);
    if i < |paths| then Invalid(paths[i], rules.fault(paths[i]).value) else Collisions(rules, paths, 0)
  }

  lemma {:induction false} ValidOnly(rules: Rules, paths: seq<string>, k: nat)
    requires k <= |paths| && AllValid(rules, paths)
    ensures Check(rules, paths, k) == Collisions(rules, paths, k)
    decreases |paths| - k
  {
    if k < |paths| { ValidOnly(rules, paths, k + 1); }
  }

  lemma {:induction false} UntilInvalid(rules: Rules, paths: seq<string>, k: nat, i: nat)
    requires k <= i < |paths| && Acceptable(rules, paths[..k])
    requires AllValid(rules, paths[..i]) && rules.fault(paths[i]).Some?
    ensures CollisionFree(rules, paths[..i]) ==>
              Check(rules, paths, k) == Invalid(paths[i], rules.fault(paths[i]).value)
    ensures !CollisionFree(rules, paths[..i]) ==> !Check(rules, paths, k).Invalid?
    decreases i - k
  {
    if k < i {
      assert paths[..i][k] == paths[k];
      var j := FirstClash(rules, paths[..k], paths[k]);
      if j < k {
        assert Collide(rules, paths[..i][j], paths[..i][k]);
      } else {
        NoClash(rules, paths, k);
        UntilInvalid(rules, paths, k + 1, i);
      }
    }
  }

  /** The one pass of the code meets the documented two exactly when every path is valid, or
      the paths before the first invalid one do not collide. */
  lemma TwoPassExactly(rules: Rules, paths: seq<string>)
    ensures var i := FirstInvalid(rules, paths);
            Check(rules, paths, 0) == TwoPass(rules, paths) <==>
            i == |paths| || CollisionFree(rules, paths[..i])
  {
    var i := FirstInvalid(rules, paths);
    if i == |paths| {
      assert paths[..i] == paths;
      ValidOnly(rules, paths, 0);
    } else {
      assert paths[..0] == [];
      UntilInvalid(rules, paths, 0, i);
    }
  }

  /** An instance: a duplicate hides that a later path is invalid. */
  lemma DuplicateHidesInvalid(fold: string -> string)
    ensures var paths := ["a", "a", ""];
            Check(BundleRules(fold), paths, 0) == Duplicate("a")
            && TwoPass(BundleRules(fold), paths) == Invalid("", Empty)
  {
    var rules, paths := BundleRules(fold), ["a", "a", ""];
    assert paths[..0] == [] && paths[..1] == ["a"];
    assert rules.fault("a").None?;
    assert FirstClash(rules, ["a"], "a") == 0;
    assert Check(rules, paths, 1) == Duplicate("a");
    assert paths[1..] == ["a", ""] && paths[1..][1..] == [""];
    assert FirstInvalid(rules, [""]) == 0;
    assert FirstInvalid(rules, ["a", ""]) == 1;
  }

  lemma CollisionFreeAsSet(rules: Rules, paths: seq<string>)
    ensures CollisionFree(rules, paths) <==>
            && Distinct(paths)
            && forall a, b :: a in paths && b in paths && a != b ==> !Collide(rules, a, b)
  {
    if CollisionFree(rules, paths) {
      forall i, j | 0 <= i < j < |paths| ensures paths[i] != paths[j] {
        assert !Collide(rules, paths[i], paths[j]);
      }
      forall a, b | a in paths && b in paths && a != b ensures !Collide(rules, a, b) {
        var i :| 0 <= i < |paths| && paths[i] == a;
        var j :| 0 <= j < |paths| && paths[j] == b;
        if i < j {
          assert !Collide(rules, paths[i], paths[j]);
        } else {
          assert !Collide(rules, paths[j], paths[i]);
        }
      }
    }
  }

  /** Acceptance does not depend on the order of the paths. */
  lemma AcceptanceIgnoresOrder(rules: Rules, paths: seq<string>, other: seq<string>)
    requires multiset(paths) == multiset(other)
    ensures Acceptable(rules, paths) <==> Acceptable(rules, other)
    ensures Check(rules, paths, 0) == Accepted <==> Check(rules, other, 0) == Accepted
  {
    CollisionFreeAsSet(rules, paths);
    CollisionFreeAsSet(rules, other);
    DistinctMultiset(paths);
    DistinctMultiset(other);
    forall x ensures x in paths <==> x in other {
      assert x in multiset(paths) <==> x in multiset(other);
    }
    forall i | 0 <= i < |paths| && AllValid(rules, other) ensures rules.fault(paths[i]).None? {
      assert paths[i] in paths && paths[i] in other;
      var j :| 0 <= j < |other| && other[j] == paths[i];
    }
    forall i | 0 <= i < |other| && AllValid(rules, paths) ensures rules.fault(other[i]).None? {
      assert other[i] in other && other[i] in paths;
      var j :| 0 <= j < |paths| && paths[j] == other[i];
    }
    AcceptsExactly(rules, paths);
    AcceptsExactly(rules, other);
  }

  /** The program's own rules meet what the trie needs. */
  lemma BundleRulesSensible(fold: string -> string)
    ensures Sensible(BundleRules(fold))
  {
  }

  lemma {:induction false} PrefixOrNot<T>(a: seq<T>, b: seq<T>)
    ensures a <= b || b <= a <==> forall i :: 0 <= i < |a| && i < |b| ==> a[i] == b[i]
  {
    if forall i :: 0 <= i < |a| && i < |b| ==> a[i] == b[i] {
      if |a| <= |b| {
        assert a == b[..|a|];
      } else {
        assert b == a[..|b|];
      }
    }
  }

  /** Under the program's own rules two paths collide exactly when the segments of one are, up to
      case, the first segments of the other. */
  lemma {:induction false} BundlePathsCollide(fold: string -> string, a: string, b: string)
    ensures Collide(BundleRules(fold), a, b) <==>
            forall i :: 0 <= i < |Split(a)| && i < |Split(b)| ==> fold(Split(a)[i]) == fold(Split(b)[i])
  {
    var rules := BundleRules(fold);
    var keysA, keysB := rules.keys(a), rules.keys(b);
    assert keysA == Keys(fold, a) && keysB == Keys(fold, b);
    PrefixOrNot(keysA, keysB);
    if Collide(rules, a, b) {
      forall i | 0 <= i < |Split(a)| && i < |Split(b)| ensures fold(Split(a)[i]) == fold(Split(b)[i]) {
        assert keysA[i] == keysB[i];
      }
    } else {
      var i :| 0 <= i < |keysA| && i < |keysB| && keysA[i] != keysB[i];
      assert fold(Split(a)[i]) != fold(Split(b)[i]);
    }
  }
}
