/** Small vocabulary shared by every module: options, the byte-wise order that Go's
    sort.Strings and slices.Sort use, and sorted lists as canonical forms of sets. */
module Prelude {
  datatype Option<+T> = None | Some(value: T)

  datatype Result<+T, +E> = Ok(value: T) | Err(error: E)

  type Byte = b: int | 0 <= b < 256

  type Bytes = seq<Byte>

  /** Limit on manifests and configurations read into memory (internal/ociblob). */
  const MAX_METADATA_SIZE := 4 * 0x10_0000

  const MAX_INT64 := 0x7FFF_FFFF_FFFF_FFFF

  type Int64 = x: int | -MAX_INT64 - 1 <= x <= MAX_INT64

  /** Two's-complement wrap-around of Go's int64. */
  function Wrap64(x: int): (r: Int64)
    ensures -MAX_INT64 - 1 <= x <= MAX_INT64 ==> r == x
    ensures (r - x) % 0x1_0000_0000_0000_0000 == 0
  {
    if -MAX_INT64 - 1 <= x <= MAX_INT64 then x
    else (x + MAX_INT64 + 1) % 0x1_0000_0000_0000_0000 - MAX_INT64 - 1
  }

  /** Lexicographic order on strings. */
  predicate Le(a: string, b: string) {
    a == [] || (b != [] && (a[0] < b[0] || (a[0] == b[0] && Le(a[1..], b[1..]))))
  }

  predicate Lt(a: string, b: string) {
    a != b && Le(a, b)
  }

  lemma {:induction false} LeTotal(a: string, b: string)
    ensures Le(a, b) || Le(b, a)
  {
    if a != [] && b != [] && a[0] == b[0] {
      LeTotal(a[1..], b[1..]);
    }
  }

  lemma {:induction false} LeRefl(a: string)
    ensures Le(a, a)
  {
    if a != [] { LeRefl(a[1..]); }
  }

  lemma {:induction false} LeAntisymmetric(a: string, b: string)
    requires Le(a, b) && Le(b, a)
    ensures a == b
  {
    if a != [] && b != [] {
      LeAntisymmetric(a[1..], b[1..]);
      assert a == [a[0]] + a[1..] && b == [b[0]] + b[1..];
    }
  }

  lemma {:induction false} LeTransitive(a: string, b: string, c: string)
    requires Le(a, b) && Le(b, c)
    ensures Le(a, c)
  {
    if a != [] && a[0] == b[0] && b[0] == c[0] {
      LeTransitive(a[1..], b[1..], c[1..]);
    }
  }

  /** a is below b exactly when it is a proper prefix of b or has the smaller character at the
      first place where they differ. */
  lemma {:induction false} LtExactly(a: string, b: string)
    ensures Lt(a, b) <==>
            exists n :: 0 <= n <= |a| && n < |b| && a[..n] == b[..n] && (n == |a| || a[n] < b[n])
  {
    if a != [] && b != [] && a[0] == b[0] {
      LtExactly(a[1..], b[1..]);
      assert a == [a[0]] + a[1..] && b == [b[0]] + b[1..];
      if Lt(a, b) {
        var n :| 0 <= n <= |a[1..]| && n < |b[1..]| && a[1..][..n] == b[1..][..n]
                 && (n == |a[1..]| || a[1..][n] < b[1..][n]);
        assert a[..n + 1] == [a[0]] + a[1..][..n] && b[..n + 1] == [b[0]] + b[1..][..n];
      }
      if n :| 0 <= n <= |a| && n < |b| && a[..n] == b[..n] && (n == |a| || a[n] < b[n]) {
        assert n > 0;
        assert a[1..][..n - 1] == a[..n][1..] && b[1..][..n - 1] == b[..n][1..];
      }
    } else if a == [] {
      assert b != [] ==> a[..0] == b[..0];
    } else if b != [] {
      assert a[..0] == b[..0];
      if n :| 0 <= n <= |a| && n < |b| && a[..n] == b[..n] && (n == |a| || a[n] < b[n]) {
        assert n > 0 ==> a[..n][0] == b[..n][0];
      }
    }
  }

  lemma LtLe(a: string, b: string, c: string)
    requires Lt(a, b) && Le(b, c)
    ensures Lt(a, c)
  {
    LeTransitive(a, b, c);
    if a == c { LeAntisymmetric(a, b); }
  }

  /** Every element is at most every later one. */
  ghost predicate Ascending(s: seq<string>) {
    forall i, j :: 0 <= i < j < |s| ==> Le(s[i], s[j])
  }

  /** Every element is strictly below every later one. */
  ghost predicate StrictlyAscending(s: seq<string>) {
    forall i, j :: 0 <= i < j < |s| ==> Lt(s[i], s[j])
  }

  ghost function Elements<T>(s: seq<T>): set<T> {
    set x | x in s
  }

  ghost predicate Distinct<T>(s: seq<T>) {
    forall i, j :: 0 <= i < j < |s| ==> s[i] != s[j]
  }

  /** s lists the set xs in ascending order, each member once. */
  ghost predicate Lists(s: seq<string>, xs: set<string>) {
    StrictlyAscending(s) && Elements(s) == xs
  }

  lemma StrictIsDistinct(s: seq<string>)
    requires StrictlyAscending(s)
    ensures Distinct(s)
  {
    forall i, j | 0 <= i < j < |s| ensures s[i] != s[j] { assert Lt(s[i], s[j]); }
  }

  lemma DistinctConcat<T>(a: seq<T>, b: seq<T>)
    requires Distinct(a) && Distinct(b) && forall x :: x in a ==> x !in b
    ensures Distinct(a + b)
  {
    forall i, j | 0 <= i < j < |a + b| ensures (a + b)[i] != (a + b)[j] {
      if i < |a| <= j { assert a[i] in a && b[j - |a|] in b; }
    }
  }

  lemma SplitAt<T>(s: seq<T>, j: nat)
    requires j < |s|
    ensures s == s[..j] + [s[j]] + s[j + 1..]
  {
  }

  /** The elements that pass a test, in order. */
  function Filter<T>(s: seq<T>, keep: T -> bool): seq<T> {
    if s == [] then []
    else if keep(s[0]) then [s[0]] + Filter(s[1..], keep)
    else Filter(s[1..], keep)
  }

  lemma {:induction false} FilterAppend<T>(s: seq<T>, x: T, keep: T -> bool)
    ensures Filter(s + [x], keep) == Filter(s, keep) + if keep(x) then [x] else []
  {
    if s == [] {
      assert s + [x] == [x];
    } else {
      assert (s + [x])[1..] == s[1..] + [x];
      FilterAppend(s[1..], x, keep);
    }
  }

  /** A set has at most one ascending listing. */
  lemma {:induction false} ListsUnique(s: seq<string>, t: seq<string>, xs: set<string>)
    requires Lists(s, xs) && Lists(t, xs)
    ensures s == t
    decreases |s|
  {
    if s == [] {
      assert forall i :: 0 <= i < |t| ==> t[i] in Elements(t);
    } else {
      assert s[0] in Elements(s);
      assert s[0] in t && t != [];
      assert t[0] in Elements(t);
      assert t[0] in s;
      if s[0] != t[0] {
        var i :| 0 <= i < |t| && t[i] == s[0];
        var j :| 0 <= j < |s| && s[j] == t[0];
        assert Lt(t[0], t[i]) && Lt(s[0], s[j]);
        LeAntisymmetric(s[0], t[0]);
      }
      forall x | x in s[1..] ensures x in t[1..] && x != s[0] {
        var i :| 1 <= i < |s| && s[i] == x;
        assert Lt(s[0], s[i]);
        assert x in Elements(s);
        var j :| 0 <= j < |t| && t[j] == x;
        assert j != 0;
        assert t[1..][j - 1] == x;
      }
      forall x | x in t[1..] ensures x in s[1..] {
        var i :| 1 <= i < |t| && t[i] == x;
        assert Lt(t[0], t[i]);
        assert x in Elements(t);
        var j :| 0 <= j < |s| && s[j] == x;
        assert j != 0;
        assert s[1..][j - 1] == x;
      }
      ListsUnique(s[1..], t[1..], Elements(s[1..]));
      assert s == [s[0]] + s[1..] && t == [t[0]] + t[1..];
    }
  }

  /** Inserts x before the first element that is not below it. */
  function Insert(x: string, s: seq<string>): seq<string> {
    if s == [] then [x]
    else if Le(x, s[0]) then [x] + s
    else [s[0]] + Insert(x, s[1..])
  }

  lemma {:induction false} InsertMultiset(x: string, s: seq<string>)
    ensures multiset(Insert(x, s)) == multiset(s) + multiset{x}
  {
    if s != [] {
      assert s == [s[0]] + s[1..];
      InsertMultiset(x, s[1..]);
    }
  }

  lemma {:induction false} InsertAscending(x: string, s: seq<string>)
    requires Ascending(s)
    ensures Ascending(Insert(x, s))
  {
    if s == [] {
    } else if Le(x, s[0]) {
      forall j | 0 <= j < |s| ensures Le(x, s[j]) {
        if j > 0 { LeTransitive(x, s[0], s[j]); }
      }
    } else {
      LeTotal(x, s[0]);
      var rest := Insert(x, s[1..]);
      InsertAscending(x, s[1..]);
      InsertMultiset(x, s[1..]);
      forall j | 0 <= j < |rest| ensures Le(s[0], rest[j]) {
        assert rest[j] in multiset(rest);
        if rest[j] != x {
          assert rest[j] in multiset(s[1..]);
          var i :| 1 <= i < |s| && s[i] == rest[j];
        }
      }
    }
  }

  function Sort(s: seq<string>): seq<string> {
    if s == [] then [] else Insert(s[0], Sort(s[1..]))
  }

  lemma {:induction false} SortMultiset(s: seq<string>)
    ensures multiset(Sort(s)) == multiset(s)
  {
    if s != [] {
      assert s == [s[0]] + s[1..];
      SortMultiset(s[1..]);
      InsertMultiset(s[0], Sort(s[1..]));
    }
  }

  lemma {:induction false} SortAscending(s: seq<string>)
    ensures Ascending(Sort(s))
  {
    if s != [] {
      SortAscending(s[1..]);
      InsertAscending(s[0], Sort(s[1..]));
    }
  }

  lemma SameHead(s: seq<string>, t: seq<string>)
    requires Ascending(s) && Ascending(t) && multiset(s) == multiset(t) && s != [] && t != []
    ensures s[0] == t[0]
  {
    assert s[0] in multiset(t) && t[0] in multiset(s);
    var i :| 0 <= i < |t| && t[i] == s[0];
    var j :| 0 <= j < |s| && s[j] == t[0];
    if s[0] != t[0] { LeAntisymmetric(s[0], t[0]); }
  }

  lemma Cancel<T>(x: T, a: multiset<T>, b: multiset<T>)
    requires multiset{x} + a == multiset{x} + b
    ensures a == b
  {
    forall y ensures a[y] == b[y] {
      assert (multiset{x} + a)[y] == (multiset{x} + b)[y];
    }
  }

  lemma SameTail(s: seq<string>, t: seq<string>)
    requires multiset(s) == multiset(t) && s != [] && t != [] && s[0] == t[0]
    ensures multiset(s[1..]) == multiset(t[1..])
    ensures s[1..] == t[1..] ==> s == t
  {
    assert s == [s[0]] + s[1..] && t == [t[0]] + t[1..];
    Cancel(s[0], multiset(s[1..]), multiset(t[1..]));
  }

  /** Ascending lists are determined by their elements with multiplicity, so sorting forgets
      the order in which a Go map was iterated. */
  lemma {:induction false} AscendingUnique(s: seq<string>, t: seq<string>)
    requires Ascending(s) && Ascending(t) && multiset(s) == multiset(t)
    ensures s == t
    decreases |s|
  {
    assert |multiset(s)| == |s| && |multiset(t)| == |t|;
    if s != [] {
      SameHead(s, t);
      SameTail(s, t);
      AscendingUnique(s[1..], t[1..]);
    }
  }

  lemma SortPermutation(s: seq<string>, t: seq<string>)
    requires multiset(s) == multiset(t)
    ensures Sort(s) == Sort(t)
  {
    SortAscending(s);
    SortAscending(t);
    SortMultiset(s);
    SortMultiset(t);
    AscendingUnique(Sort(s), Sort(t));
  }

  lemma SortedMembers(s: seq<string>)
    ensures forall x :: x in Sort(s) <==> x in s
    ensures |Sort(s)| == |s|
  {
    SortMultiset(s);
    assert |multiset(Sort(s))| == |Sort(s)| && |multiset(s)| == |s|;
    forall x ensures x in Sort(s) <==> x in s {
      assert x in multiset(Sort(s)) <==> x in multiset(s);
    }
  }

  lemma {:induction false} DistinctMultiset<T>(s: seq<T>)
    ensures Distinct(s) <==> forall x :: multiset(s)[x] <= 1
  {
    if s != [] {
      assert s == [s[0]] + s[1..];
      DistinctMultiset(s[1..]);
      assert multiset(s) == multiset{s[0]} + multiset(s[1..]);
      if Distinct(s) {
        assert Distinct(s[1..]);
        assert s[0] !in s[1..];
      }
      if forall x :: multiset(s)[x] <= 1 {
        forall x ensures multiset(s[1..])[x] <= 1 { assert multiset(s)[x] <= 1; }
        assert multiset(s)[s[0]] <= 1;
        assert s[0] !in s[1..];
        assert Distinct(s[1..]);
        forall i, j | 0 <= i < j < |s| ensures s[i] != s[j] {
          assert s[j] == s[1..][j - 1];
          if i > 0 { assert s[i] == s[1..][i - 1]; }
        }
      }
    }
  }

  lemma SortStrict(s: seq<string>)
    requires Distinct(s)
    ensures Lists(Sort(s), Elements(s))
  {
    SortAscending(s);
    SortedMembers(s);
    SortMultiset(s);
    DistinctMultiset(s);
    DistinctMultiset(Sort(s));
  }

  lemma {:induction false} DistinctCount<T>(s: seq<T>)
    requires Distinct(s)
    ensures |Elements(s)| == |s|
  {
    if s == [] {
      assert Elements(s) == {};
    } else {
      assert s[0] !in s[1..];
      assert Elements(s) == {s[0]} + Elements(s[1..]);
      DistinctCount(s[1..]);
    }
  }

  /** Pigeonhole: a list without repetition, drawn from another of the same length without
      repetition, is a permutation of it. */
  lemma Pigeonhole<T>(s: seq<T>, t: seq<T>)
    requires Distinct(s) && Distinct(t) && |s| == |t|
    requires forall x :: x in s ==> x in t
    ensures multiset(s) == multiset(t)
  {
    DistinctCount(s);
    DistinctCount(t);
    assert Elements(s) <= Elements(t);
    assert |Elements(t) - Elements(s)| == |Elements(t)| - |Elements(s)|;
    assert Elements(s) == Elements(t);
    DistinctMultiset(s);
    DistinctMultiset(t);
    forall x ensures multiset(s)[x] == multiset(t)[x] {
      assert x in Elements(s) <==> x in Elements(t);
      assert x in s <==> x in t;
      assert multiset(s)[x] <= 1 && multiset(t)[x] <= 1;
      assert x in multiset(s) <==> x in multiset(t);
    }
  }

  /** The ascending listing of a finite set. */
  ghost function Listing(xs: set<string>): seq<string> {
    if xs == {} then []
    else
      var x :| x in xs;
      Insert(x, Listing(xs - {x}))
  }

  lemma ListingStep(x: string, rest: seq<string>, xs: set<string>)
    requires x in xs && Lists(rest, xs - {x})
    ensures Lists(Insert(x, rest), xs)
  {
    assert x !in rest;
    InsertAscending(x, rest);
    InsertMultiset(x, rest);
    DistinctMultiset(rest);
    var r := Insert(x, rest);
    forall y ensures multiset(r)[y] <= 1 {
      if y == x { assert x !in multiset(rest); }
    }
    DistinctMultiset(r);
    forall y ensures y in Elements(r) <==> y in xs {
      assert y in r <==> y in multiset(r);
      assert y in rest <==> y in multiset(rest);
      assert y in rest <==> y in Elements(rest);
    }
  }

  lemma {:induction false} ListingLists(xs: set<string>)
    ensures Lists(Listing(xs), xs)
  {
    if xs != {} {
      var x :| x in xs && Listing(xs) == Insert(x, Listing(xs - {x}));
      ListingLists(xs - {x});
      ListingStep(x, Listing(xs - {x}), xs);
    }
  }

  /** Membership in a listing. */
  lemma ListingMembers(xs: set<string>)
    ensures forall x :: x in Listing(xs) <==> x in xs
    ensures xs != {} ==> Listing(xs) != []
  {
    ListingLists(xs);
    forall x ensures x in Listing(xs) <==> x in xs { assert x in Listing(xs) <==> x in Elements(Listing(xs)); }
    if xs != {} {
      var x :| x in xs;
      assert x in Listing(xs);
    }
  }

  /** A method that copies a set into a list in an arbitrary order and sorts it: the shape
      of every "collect map keys, then sort" passage of the program. */
  method SortedKeys(xs: set<string>) returns (s: seq<string>)
    ensures Lists(s, xs)
    ensures s == Listing(xs)
  {
    var todo := xs;
    var keys: seq<string> := [];
    while todo != {}
      invariant todo <= xs
      invariant Distinct(keys)
      invariant forall y :: y in keys <==> y in xs - todo
      decreases todo
    {
      var x :| x in todo;
      assert x !in keys;
      todo := todo - {x};
      keys := keys + [x];
    }
    assert Elements(keys) == xs;
    SortStrict(keys);
    s := Sort(keys);
    ListingLists(xs);
    ListsUnique(s, Listing(xs), xs);
  }
}
