/** Safe extraction (internal/archive/extract.go, artifact/extract.go) onto a filesystem that
    identifies names exactly as the collision check does. Paths are key sequences below the
    destination directory. */
module Extraction {
  import opened Prelude
  import opened PathTrie
  import opened Limits

  datatype Node = Dir | File(content: Bytes) | Link

  type Tree = map<seq<string>, Node>

  /** ensureDirectoryPath: every existing component of keys is a directory. */
  predicate DirectoryPath(tree: Tree, keys: seq<string>) {
    forall n :: 0 <= n <= |keys| && keys[..n] in tree ==> tree[keys[..n]] == Dir
  }

  /** The tree after the missing ones of the first n + 1 prefixes of keys were created. */
  function Mkdirs(tree: Tree, keys: seq<string>, n: nat): Tree
    requires n <= |keys|
  {
    var above := if n == 0 then tree else Mkdirs(tree, keys, n - 1);
    if keys[..n] in above then above else above[keys[..n] := Dir]
  }

  lemma {:induction false} MkdirsAdds(tree: Tree, keys: seq<string>, n: nat, q: seq<string>)
    requires n <= |keys|
    ensures var after := Mkdirs(tree, keys, n);
            && (q in after <==> q in tree || (|q| <= n && q == keys[..|q|]))
            && (q in after ==> after[q] == if q in tree then tree[q] else Dir)
  {
    if n > 0 {
      MkdirsAdds(tree, keys, n - 1, q);
      MkdirsAdds(tree, keys, n - 1, keys[..n]);
    }
    assert keys[..n] == keys[..|keys[..n]|];
  }

  /** extractFile: whether it succeeds, and the tree it leaves behind in either case. */
  function Write(tree: Tree, keys: seq<string>, size: int, data: Bytes, overwrite: bool): (bool, Tree)
    requires keys != []
  {
    var parent := keys[..|keys| - 1];
    if !DirectoryPath(tree, parent) then (false, tree)
    else
      var ready := Mkdirs(tree, parent, |parent|);
      if keys in ready && (!ready[keys].File? || !overwrite) then (false, ready)
      else if |data| < size then (false, ready - {keys})
      else (true, ready[keys := File(if size < 0 then [] else data[..size])])
  }

  datatype ExtractError = Unsafe | Unreadable | NotFound | Rejected(reason: TarError) | NotAcceptable(verdict: Verdict)

  /** Extraction of a's entries from k on into tree. */
  function ExtractFrom(rules: Rules, opts: Options, overwrite: bool, a: Archive, k: nat, tree: Tree)
    : (Result<Info, ExtractError>, Tree)
    requires Sensible(rules) && k <= |a.entries|
    decreases |a.entries| - k
  {
    var total := Total(a.entries, k);
    if k == |a.entries| then
      match Finish(opts, a, total)
      case Ok(info) => (Ok(info), tree)
      case Err(e) => (Err(Rejected(e)), tree)
    else
      var e := a.entries[k];
      var err := ExtractAdmits(rules, opts, k, total, e);
      if err.Some? then (Err(Rejected(err.value)), tree)
      else
        var (ok, after) := Write(tree, rules.keys(e.name), e.size, e.data, overwrite);
        if !ok then (Err(Unsafe), after) else ExtractFrom(rules, opts, overwrite, a, k + 1, after)
  }

  function Extracted(rules: Rules, opts: Options, overwrite: bool, a: Archive, tree: Tree)
    : (Result<Info, ExtractError>, Tree)
    requires Sensible(rules)
  {
    if !DirectoryPath(tree, []) then (Err(Unsafe), tree)
    else ExtractFrom(rules, opts, overwrite, a, 0, Mkdirs(tree, [], 0))
  }

  class Destination {
    var tree: Tree

    constructor (tree: Tree)
      ensures this.tree == tree
    {
      this.tree := tree;
    }

    method EnsureDirectoryPath(keys: seq<string>) returns (ok: bool)
      ensures ok <==> DirectoryPath(tree, keys)
    {
      var n := 0;
      while n <= |keys|
        invariant n <= |keys| + 1
        invariant forall i :: 0 <= i < n && keys[..i] in tree ==> tree[keys[..i]] == Dir
      {
        if keys[..n] in tree && tree[keys[..n]] != Dir {
          return false;
        }
        n := n + 1;
      }
      return true;
    }

    method MkdirAll(keys: seq<string>)
      modifies this
      ensures tree == Mkdirs(old(tree), keys, |keys|)
    {
      var n := 0;
      while n <= |keys|
        invariant n <= |keys| + 1
        invariant tree == if n == 0 then old(tree) else Mkdirs(old(tree), keys, n - 1)
      {
        if keys[..n] !in tree {
          tree := tree[keys[..n] := Dir];
        }
        n := n + 1;
      }
    }

    method ExtractFile(keys: seq<string>, size: int, data: Bytes, overwrite: bool) returns (ok: bool)
      requires keys != []
      modifies this
      ensures (ok, tree) == Write(old(tree), keys, size, data, overwrite)
    {
      var parent := keys[..|keys| - 1];
      var safe := EnsureDirectoryPath(parent);
      if !safe {
        return false;
      }
      MkdirAll(parent);
      if keys in tree && (!tree[keys].File? || !overwrite) {
        return false;
      }
      // The file is created or truncated, filled, and removed again when the entry ends early.
      ghost var ready := tree;
      tree := tree[keys := File([])];
      if |data| < size {
        tree := tree - {keys};
        assert tree == ready - {keys};
        return false;
      }
      tree := tree[keys := File(if size < 0 then [] else data[..size])];
      assert tree == ready[keys := File(if size < 0 then [] else data[..size])];
      return true;
    }

    /** The checks that ExtractContext makes on an entry before it touches the destination. */
    method Refuse(rules: Rules, opts: Options, seen: nat, before: Int64, e: Entry) returns (r: Option<TarError>)
      ensures r == ExtractAdmits(rules, opts, seen, before, e)
    {
      if !e.regular { return Some(NotRegular); }
      if rules.fault(e.name).Some? { return Some(BadName); }
      var count := seen + 1;
      if count > opts.maxFiles { return Some(TooManyFiles); }
      if e.size > opts.maxFile { return Some(FileTooLarge); }
      var total := Wrap64(before + e.size);
      if total > opts.maxTotal { return Some(TotalTooLarge); }
      return None;
    }

    /** The loop of ExtractContext over the entries. */
    method ExtractEntries(rules: Rules, opts: Options, overwrite: bool, a: Archive)
      returns (failure: Option<ExtractError>, total: Int64)
      requires Sensible(rules)
      modifies this
      ensures failure.Some? ==> ExtractFrom(rules, opts, overwrite, a, 0, old(tree)) == (Err(failure.value), tree)
      ensures failure.None? ==>
                && total == Total(a.entries, |a.entries|)
                && ExtractFrom(rules, opts, overwrite, a, 0, old(tree))
                   == ExtractFrom(rules, opts, overwrite, a, |a.entries|, tree)
    {
      total := 0;
      var k := 0;
      ghost var whole := ExtractFrom(rules, opts, overwrite, a, 0, tree);
      while k < |a.entries|
        invariant k <= |a.entries| && total == Total(a.entries, k)
        invariant whole == ExtractFrom(rules, opts, overwrite, a, k, tree)
      {
        var e := a.entries[k];
        var refused := Refuse(rules, opts, k, total, e);
        if refused.Some? {
          return Some(Rejected(refused.value)), total;
        }
        total := Wrap64(total + e.size);
        var ok := ExtractFile(rules.keys(e.name), e.size, e.data, overwrite);
        if !ok {
          return Some(Unsafe), total;
        }
        k := k + 1;
      }
      failure := None;
    }

    /** ExtractContext. */
    method ExtractContext(rules: Rules, options: Options, overwrite: bool, a: Archive)
      returns (r: Result<Info, ExtractError>)
      requires Sensible(rules)
      modifies this
      ensures (r, tree) == Extracted(rules, WithDefaults(options), overwrite, a, old(tree))
    {
      var opts := WithDefaults(options);
      var safe := EnsureDirectoryPath([]);
      if !safe {
        return Err(Unsafe);
      }
      MkdirAll([]);
      var failure, total := ExtractEntries(rules, opts, overwrite, a);
      if failure.Some? {
        return Err(failure.value);
      }
      if !a.terminated {
        return Err(Rejected(BadHeader));
      }
      var tail := Drain(a.tail, a.ended, opts.maxTotal, total);
      match tail {
        case Ok(n) => return Ok(Info(|a.entries|, Wrap64(total + n)));
        case Err(e) => return Err(Rejected(e));
      }
    }
  }
}
