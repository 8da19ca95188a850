/** The tar limits of internal/archive: Scan (the read-only pass), the checks that
    ExtractContext makes before each file, and the drain of the bytes after the terminator. */
module Limits {
  import opened Prelude
  import opened PathTrie

  const DEFAULT_MAX_FILES := 100000
  const DEFAULT_MAX_TOTAL_SIZE := 4 * 0x4000_0000
  const DEFAULT_MAX_FILE_SIZE := 0x4000_0000

  datatype Options = Options(maxFiles: Int64, maxTotal: Int64, maxFile: Int64)

  /** A zero limit means the default. */
  function WithDefaults(opts: Options): Options {
    Options(if opts.maxFiles == 0 then DEFAULT_MAX_FILES else opts.maxFiles,
            if opts.maxTotal == 0 then DEFAULT_MAX_TOTAL_SIZE else opts.maxTotal,
            if opts.maxFile == 0 then DEFAULT_MAX_FILE_SIZE else opts.maxFile)
  }

  /** One tar entry: its header, and the bytes the tar reader yields for it. */
  datatype Entry = Entry(name: string, regular: bool, size: Int64, data: Bytes)

  /** A tar stream: its entries, whether the terminator follows them or a header that cannot be
      read, the sizes of the reads after the terminator, and whether those reach the end of the
      stream or a read that fails. */
  datatype Archive = Archive(entries: seq<Entry>, terminated: bool, tail: seq<nat>, ended: bool)

  datatype Info = Info(fileCount: int, uncompressedSize: int)

  datatype TarError =
    | BadHeader | ReadFailed | NotRegular | BadName | TooManyFiles | FileTooLarge | TotalTooLarge | Truncated

  function Sum(sizes: seq<nat>): nat {
    if sizes == [] then 0 else sizes[0] + Sum(sizes[1..])
  }

  /** drain, read by read, in int64 arithmetic. */
  function DrainFrom(tail: seq<nat>, ended: bool, maxBytes: Int64, alreadyRead: Int64, drained: Int64)
    : Result<Int64, TarError>
  {
    if tail == [] then if ended then Ok(drained) else Err(ReadFailed)
    else if tail[0] > 0 && tail[0] > Wrap64(Wrap64(maxBytes - alreadyRead) - drained) then Err(TotalTooLarge)
    else DrainFrom(tail[1..], ended, maxBytes, alreadyRead, Wrap64(drained + tail[0]))
  }

  /** Within the budget, draining does not depend on how the tail is split into reads. */
  lemma {:induction false} DrainCounts(tail: seq<nat>, ended: bool, maxBytes: Int64, alreadyRead: Int64,
                                       drained: Int64)
    requires 0 <= alreadyRead && 0 <= drained <= maxBytes - alreadyRead
    ensures DrainFrom(tail, ended, maxBytes, alreadyRead, drained) ==
            if alreadyRead + drained + Sum(tail) > maxBytes then Err(TotalTooLarge)
            else if ended then Ok(drained + Sum(tail)) else Err(ReadFailed)
  {
    if tail != [] && tail[0] <= maxBytes - alreadyRead - drained {
      DrainCounts(tail[1..], ended, maxBytes, alreadyRead, drained + tail[0]);
    }
  }

  /** drain: reads to the end within the budget that already-read bytes leave. */
  method Drain(tail: seq<nat>, ended: bool, maxBytes: Int64, alreadyRead: Int64) returns (r: Result<Int64, TarError>)
    ensures r == DrainFrom(tail, ended, maxBytes, alreadyRead, 0)
  {
    var drained: Int64 := 0;
    var i := 0;
    while i < |tail|
      invariant i <= |tail|
      invariant DrainFrom(tail, ended, maxBytes, alreadyRead, 0)
                == DrainFrom(tail[i..], ended, maxBytes, alreadyRead, drained)
    {
      var n := tail[i];
      assert tail[i..][1..] == tail[i + 1..];
      if n > 0 && n > Wrap64(Wrap64(maxBytes - alreadyRead) - drained) {
        return Err(TotalTooLarge);
      }
      drained := Wrap64(drained + n);
      i := i + 1;
    }
    return if ended then Ok(drained) else Err(ReadFailed);
  }

  /** Scan's checks on one entry, in order, with total bytes and count files already seen. */
  function ScanAdmits(rules: Rules, opts: Options, count: nat, total: Int64, e: Entry): Option<TarError> {
    if !e.regular then Some(NotRegular)
    else if rules.fault(e.name).Some? then Some(BadName)
    else if count >= opts.maxFiles then Some(TooManyFiles)
    else if e.size > opts.maxFile then Some(FileTooLarge)
    else if e.size < 0 || total > Wrap64(opts.maxTotal - e.size) then Some(TotalTooLarge)
    else if |e.data| < e.size then Some(Truncated)
    else None
  }

  /** ExtractContext's checks before it touches the destination, on the same entry. */
  function ExtractAdmits(rules: Rules, opts: Options, count: nat, total: Int64, e: Entry): Option<TarError> {
    if !e.regular then Some(NotRegular)
    else if rules.fault(e.name).Some? then Some(BadName)
    else if count + 1 > opts.maxFiles then Some(TooManyFiles)
    else if e.size > opts.maxFile then Some(FileTooLarge)
    else if Wrap64(total + e.size) > opts.maxTotal then Some(TotalTooLarge)
    else None
  }

  /** Both passes judge one entry alike, and keep the running total within the limit, where
      that total leaves room for one more file. */
  lemma AdmitsAgree(rules: Rules, opts: Options, count: nat, total: Int64, e: Entry)
    requires 0 <= e.size && 0 <= total <= opts.maxTotal
    requires count < opts.maxFiles ==> total + opts.maxFile <= MAX_INT64
    ensures ScanAdmits(rules, opts, count, total, e) ==
            if ExtractAdmits(rules, opts, count, total, e).None? && |e.data| < e.size
            then Some(Truncated) else ExtractAdmits(rules, opts, count, total, e)
    ensures ExtractAdmits(rules, opts, count, total, e).None? ==>
              0 <= total + e.size == Wrap64(total + e.size) <= opts.maxTotal
  {
  }

  function Names(entries: seq<Entry>): seq<string> {
    seq(|entries|, i requires 0 <= i < |entries| => entries[i].name)
  }

  /** Running total of extraction after k entries, in int64. */
  function Total(entries: seq<Entry>, k: nat): Int64
    requires k <= |entries|
  {
    if k == 0 then 0 else Wrap64(Total(entries, k - 1) + entries[k - 1].size)
  }

  /** Both passes end at a bad header, or by draining the tail. */
  function Finish(opts: Options, a: Archive, total: Int64): Result<Info, TarError> {
    if !a.terminated then Err(BadHeader)
    else match DrainFrom(a.tail, a.ended, opts.maxTotal, total, 0)
    case Ok(n) => Ok(Info(|a.entries|, Wrap64(total + n)))
    case Err(e) => Err(e)
  }

  /** The outcome of Scan from entry k on, and of Extract's checks from entry k on. */
  function ScanFrom(rules: Rules, opts: Options, a: Archive, k: nat): Result<Info, TarError>
    requires k <= |a.entries|
    decreases |a.entries| - k
  {
    var total := Total(a.entries, k);
    if k == |a.entries| then Finish(opts, a, total)
    else
      var err := ScanAdmits(rules, opts, k, total, a.entries[k]);
      if err.Some? then Err(err.value) else ScanFrom(rules, opts, a, k + 1)
  }

  function ChecksFrom(rules: Rules, opts: Options, a: Archive, k: nat): Result<Info, TarError>
    requires k <= |a.entries|
    decreases |a.entries| - k
  {
    var total := Total(a.entries, k);
    if k == |a.entries| then Finish(opts, a, total)
    else
      var err := ExtractAdmits(rules, opts, k, total, a.entries[k]);
      if err.Some? then Err(err.value)
      else if |a.entries[k].data| < a.entries[k].size then Err(Truncated)
      else ChecksFrom(rules, opts, a, k + 1)
  }

  ghost predicate SizesFromTar(entries: seq<Entry>) {
    forall i :: 0 <= i < |entries| ==> 0 <= entries[i].size
  }

  function Min(a: int, b: int): int {
    if a <= b then a else b
  }

  /** The limits under which adding before comparing and subtracting before comparing are the
      same: the largest total that leaves room for one more file, and that file, fit int64. */
  predicate LimitsFit(opts: Options) {
    || opts.maxFiles <= 0
    || opts.maxFile < 0
    || (if opts.maxTotal < 0 then opts.maxFile - opts.maxTotal <= MAX_INT64 + 1
        else Min(opts.maxTotal, (opts.maxFiles - 1) * opts.maxFile) + opts.maxFile <= MAX_INT64)
  }

  /** The declared size of all entries. */
  function Declared(entries: seq<Entry>): int {
    if entries == [] then 0
    else Declared(entries[..|entries| - 1]) + entries[|entries| - 1].size
  }

  predicate EntryInLimits(rules: Rules, opts: Options, e: Entry) {
    e.regular && rules.fault(e.name).None? && e.size <= opts.maxFile && |e.data| >= e.size
  }

  ghost predicate AllInLimits(rules: Rules, opts: Options, entries: seq<Entry>, k: nat) {
    forall i :: k <= i < |entries| ==> EntryInLimits(rules, opts, entries[i])
  }

  /** An archive within the limits, whatever the order of its entries. Without any byte or
      entry it is so under negative limits too. */
  ghost predicate InLimits(rules: Rules, opts: Options, a: Archive) {
    && a.terminated && a.ended
    && AllInLimits(rules, opts, a.entries, 0)
    && (a.entries == [] || |a.entries| <= opts.maxFiles)
    && (Declared(a.entries) + Sum(a.tail) <= opts.maxTotal || (a.entries == [] && Sum(a.tail) == 0))
  }

  lemma {:induction false} DeclaredNonNegative(entries: seq<Entry>)
    requires SizesFromTar(entries)
    ensures 0 <= Declared(entries)
  {
    if entries != [] { DeclaredNonNegative(entries[..|entries| - 1]); }
  }

  lemma {:induction false} DeclaredFrom(entries: seq<Entry>, k: nat)
    requires SizesFromTar(entries) && k <= |entries|
    ensures 0 <= Declared(entries[..k]) <= Declared(entries)
    decreases |entries| - k
  {
    if k == |entries| {
      assert entries[..k] == entries;
      DeclaredNonNegative(entries);
    } else {
      DeclaredFrom(entries, k + 1);
      DeclaredNonNegative(entries[..k]);
      assert entries[..k + 1][..k] == entries[..k];
    }
  }

  lemma OneMore(n: nat, x: int)
    ensures (n + 1) * x == n * x + x
  {
  }

  lemma {:induction false} Scales(m: int, n: int, x: int)
    requires m <= n && 0 <= x
    ensures m * x <= n * x
  {
  }

  lemma {:induction false} RoomForOneFile(opts: Options, count: nat, total: int)
    requires LimitsFit(opts) && 0 <= opts.maxFile && 0 <= total <= opts.maxTotal
    requires count < opts.maxFiles && total <= count * opts.maxFile
    ensures total + opts.maxFile <= MAX_INT64
  {
    Scales(count, opts.maxFiles - 1, opts.maxFile);
  }

  /** What both passes know before entry k: the exact total so far, within the limits. */
  ghost predicate Counted(opts: Options, entries: seq<Entry>, k: nat)
    requires k <= |entries|
  {
    && (k == 0 || k <= opts.maxFiles)
    && 0 <= Total(entries, k) == Declared(entries[..k]) <= opts.maxTotal
    && Total(entries, k) <= k * opts.maxFile
  }

  ghost predicate RestAccepted(rules: Rules, opts: Options, a: Archive, k: nat, r: Result<Info, TarError>) {
    && (r.Ok? <==>
          && a.terminated && a.ended
          && AllInLimits(rules, opts, a.entries, k)
          && (k == |a.entries| || |a.entries| <= opts.maxFiles)
          && Declared(a.entries) + Sum(a.tail) <= opts.maxTotal)
    && (r.Ok? ==> r.value == Info(|a.entries|, Declared(a.entries) + Sum(a.tail)))
  }

  lemma AgreeStep(rules: Rules, opts: Options, a: Archive, k: nat)
    requires LimitsFit(opts) && 0 <= opts.maxFile && 0 <= opts.maxTotal && SizesFromTar(a.entries)
    requires k < |a.entries| && Counted(opts, a.entries, k)
    ensures var scanned := ScanFrom(rules, opts, a, k);
            || (scanned == ChecksFrom(rules, opts, a, k) && RestAccepted(rules, opts, a, k, scanned))
            || (&& scanned == ScanFrom(rules, opts, a, k + 1)
                && ChecksFrom(rules, opts, a, k) == ChecksFrom(rules, opts, a, k + 1)
                && EntryInLimits(rules, opts, a.entries[k]) && Counted(opts, a.entries, k + 1))
  {
    if k < opts.maxFiles { RoomForOneFile(opts, k, Total(a.entries, k)); }
    AdmitsAgree(rules, opts, k, Total(a.entries, k), a.entries[k]);
    assert a.entries[..k + 1][..k] == a.entries[..k];
    DeclaredFrom(a.entries, k + 1);
    OneMore(k, opts.maxFile);
  }

  lemma RestStep(rules: Rules, opts: Options, a: Archive, k: nat, r: Result<Info, TarError>)
    requires k < |a.entries| && EntryInLimits(rules, opts, a.entries[k]) && Counted(opts, a.entries, k + 1)
    requires RestAccepted(rules, opts, a, k + 1, r)
    ensures RestAccepted(rules, opts, a, k, r)
  {
  }

  lemma AgreeAtEnd(rules: Rules, opts: Options, a: Archive)
    requires Counted(opts, a.entries, |a.entries|)
    ensures Finish(opts, a, Total(a.entries, |a.entries|)) ==
            if !a.terminated then Err(BadHeader)
            else if Declared(a.entries) + Sum(a.tail) > opts.maxTotal then Err(TotalTooLarge)
            else if a.ended then Ok(Info(|a.entries|, Declared(a.entries) + Sum(a.tail))) else Err(ReadFailed)
  {
    assert a.entries[..|a.entries|] == a.entries;
    DrainCounts(a.tail, a.ended, opts.maxTotal, Total(a.entries, |a.entries|), 0);
  }

  /** Under non-negative limits that fit, both passes from entry k on accept the rest exactly
      when it is within the limits, and then report the same count and size. */
  lemma {:induction false} AgreeFrom(rules: Rules, opts: Options, a: Archive, k: nat)
    requires LimitsFit(opts) && 0 <= opts.maxFile && 0 <= opts.maxTotal && SizesFromTar(a.entries)
    requires k <= |a.entries| && Counted(opts, a.entries, k)
    ensures ScanFrom(rules, opts, a, k) == ChecksFrom(rules, opts, a, k)
    ensures RestAccepted(rules, opts, a, k, ScanFrom(rules, opts, a, k))
    decreases |a.entries| - k
  {
    if k == |a.entries| {
      AgreeAtEnd(rules, opts, a);
    } else {
      AgreeStep(rules, opts, a, k);
      if EntryInLimits(rules, opts, a.entries[k]) && Counted(opts, a.entries, k + 1) {
        AgreeFrom(rules, opts, a, k + 1);
        RestStep(rules, opts, a, k, ScanFrom(rules, opts, a, k + 1));
      }
    }
  }

  lemma {:induction false} DrainNothing(tail: seq<nat>, ended: bool, maxBytes: Int64)
    requires maxBytes < 0
    ensures DrainFrom(tail, ended, maxBytes, 0, 0) ==
            if Sum(tail) > 0 then Err(TotalTooLarge) else if ended then Ok(0) else Err(ReadFailed)
  {
    if tail != [] && tail[0] == 0 { DrainNothing(tail[1..], ended, maxBytes); }
  }

  /** Where the limits fit, Scan and the checks of Extract accept the same streams, namely
      those within the limits, report the same count and size, and give the same error. */
  lemma ScanAgreesWithExtract(rules: Rules, opts: Options, a: Archive)
    requires LimitsFit(opts) && SizesFromTar(a.entries)
    ensures ScanFrom(rules, opts, a, 0) == ChecksFrom(rules, opts, a, 0)
    ensures ScanFrom(rules, opts, a, 0).Ok? <==> InLimits(rules, opts, a)
    ensures ScanFrom(rules, opts, a, 0).Ok? ==>
              ScanFrom(rules, opts, a, 0).value == Info(|a.entries|, Declared(a.entries) + Sum(a.tail))
  {
    assert a.entries[..0] == [];
    DeclaredNonNegative(a.entries);
    if a.entries == [] {
      if opts.maxTotal < 0 {
        DrainNothing(a.tail, a.ended, opts.maxTotal);
      } else {
        DrainCounts(a.tail, a.ended, opts.maxTotal, 0, 0);
      }
    } else if opts.maxFiles > 0 && opts.maxFile >= 0 && opts.maxTotal >= 0 {
      AgreeFrom(rules, opts, a, 0);
    } else {
      assert Total(a.entries, 0) == 0;
      assert !EntryInLimits(rules, opts, a.entries[0]) || opts.maxFiles <= 0 || opts.maxTotal < 0;
    }
  }

  /** Size of file i when t bytes are packed into files of at most step bytes. */
  function Part(t: Int64, step: Int64, i: nat): Int64
    requires 0 <= t && 0 <= step
  {
    if t <= i * step then 0 else Min(step, t - i * step)
  }

  function FullEntry(name: string, size: Int64): Entry
    requires 0 <= size
  {
    Entry(name, true, size, seq(size, _ => 0))
  }

  /** As many files as the limits allow: t bytes in all but the last, which has step bytes. */
  function Pile(name: string, t: Int64, step: Int64, n: nat): Archive
    requires 0 <= t && 0 <= step
  {
    Archive(seq(n, i requires 0 <= i => FullEntry(name, Part(t, step, i))) + [FullEntry(name, step)], true, [], true)
  }

  lemma {:induction false} PileTotal(name: string, t: Int64, step: Int64, n: nat, k: nat)
    requires 0 <= t && 0 <= step && k <= n
    ensures Total(Pile(name, t, step, n).entries, k) == Min(t, k * step)
  {
    if k > 0 {
      PileTotal(name, t, step, n, k - 1);
      assert k * step == (k - 1) * step + step;
    }
  }

  /** Both passes go past entry i. */
  predicate Admitted(rules: Rules, opts: Options, a: Archive, i: nat)
    requires i < |a.entries|
  {
    && ScanAdmits(rules, opts, i, Total(a.entries, i), a.entries[i]).None?
    && ExtractAdmits(rules, opts, i, Total(a.entries, i), a.entries[i]).None?
  }

  lemma {:induction false} PassesTo(rules: Rules, opts: Options, a: Archive, k: nat, n: nat)
    requires k <= n <= |a.entries|
    requires forall i :: k <= i < n ==> Admitted(rules, opts, a, i)
    ensures ScanFrom(rules, opts, a, k) == ScanFrom(rules, opts, a, n)
    ensures ChecksFrom(rules, opts, a, k) == ChecksFrom(rules, opts, a, n)
    decreases n - k
  {
    if k < n {
      assert Admitted(rules, opts, a, k);
      PassesTo(rules, opts, a, k + 1, n);
    }
  }

  lemma PileAdmitted(rules: Rules, opts: Options, name: string, t: Int64, n: nat, i: nat)
    requires rules.fault(name).None? && 0 <= opts.maxFile && 0 <= t <= opts.maxTotal && i < n < opts.maxFiles
    ensures Admitted(rules, opts, Pile(name, t, opts.maxFile, n), i)
  {
    PileTotal(name, t, opts.maxFile, n, i);
    OneMore(i, opts.maxFile);
  }

  lemma PileEnds(rules: Rules, opts: Options, a: Archive, n: nat, t: Int64)
    requires |a.entries| == n + 1 == opts.maxFiles && Total(a.entries, n) == t
    requires a.terminated && a.tail == [] && a.ended
    requires 0 <= opts.maxFile && 0 <= t <= opts.maxTotal && t + opts.maxFile > MAX_INT64
    requires rules.fault(a.entries[n].name).None? && a.entries[n] == FullEntry(a.entries[n].name, opts.maxFile)
    ensures ScanFrom(rules, opts, a, n) == Err(TotalTooLarge) && ChecksFrom(rules, opts, a, n).Ok?
  {
    assert Total(a.entries, n + 1) == Wrap64(t + opts.maxFile) < 0;
    assert ChecksFrom(rules, opts, a, n) == ChecksFrom(rules, opts, a, n + 1);
  }

  /** The last file of a pile that leaves no room for it is rejected by the scan, while the
      sum of extraction wraps to a negative total that passes. */
  lemma PileDisagrees(rules: Rules, opts: Options, name: string, t: Int64, n: nat)
    requires rules.fault(name).None? && 0 <= opts.maxFile && 0 <= t <= opts.maxTotal && n + 1 == opts.maxFiles
    requires t <= n * opts.maxFile && t + opts.maxFile > MAX_INT64
    ensures var a := Pile(name, t, opts.maxFile, n);
            ScanFrom(rules, opts, a, 0) == Err(TotalTooLarge) && ChecksFrom(rules, opts, a, 0).Ok?
  {
    var a := Pile(name, t, opts.maxFile, n);
    forall i | 0 <= i < n ensures Admitted(rules, opts, a, i) {
      PileAdmitted(rules, opts, name, t, n, i);
    }
    PassesTo(rules, opts, a, 0, n);
    PileTotal(name, t, opts.maxFile, n, n);
    assert Total(a.entries, n) == t;
    assert a.entries[n] == FullEntry(name, opts.maxFile);
    PileEnds(rules, opts, a, n, t);
  }

  /** A negative total limit that wraps when the file size is subtracted lets the scan pass
      a file that extraction refuses. */
  lemma NegativeDisagrees(rules: Rules, opts: Options, name: string)
    requires rules.fault(name).None? && !LimitsFit(opts) && opts.maxTotal < 0
    ensures var a := Archive([FullEntry(name, opts.maxFile)], true, [], true);
            ScanFrom(rules, opts, a, 0).Ok? && ChecksFrom(rules, opts, a, 0) == Err(TotalTooLarge)
  {
    var a := Archive([FullEntry(name, opts.maxFile)], true, [], true);
    assert Total(a.entries, 0) == 0;
    assert ScanFrom(rules, opts, a, 0) == ScanFrom(rules, opts, a, 1);
  }

  /** For any limits, the two passes agree on every archive with non-negative sizes if and only
      if the limits fit. */
  lemma PassesAgreeExactly(rules: Rules, opts: Options, name: string)
    requires rules.fault(name).None?
    ensures LimitsFit(opts) <==>
            forall a: Archive :: SizesFromTar(a.entries) ==>
              ScanFrom(rules, opts, a, 0) == ChecksFrom(rules, opts, a, 0)
  {
    if LimitsFit(opts) {
      forall a: Archive | SizesFromTar(a.entries)
        ensures ScanFrom(rules, opts, a, 0) == ChecksFrom(rules, opts, a, 0)
      {
        ScanAgreesWithExtract(rules, opts, a);
      }
    } else if opts.maxTotal < 0 {
      NegativeDisagrees(rules, opts, name);
      assert SizesFromTar(Archive([FullEntry(name, opts.maxFile)], true, [], true).entries);
    } else {
      var n := opts.maxFiles - 1;
      var t := Min(opts.maxTotal, n * opts.maxFile);
      assert 0 <= n * opts.maxFile;
      PileDisagrees(rules, opts, name, t, n);
      assert SizesFromTar(Pile(name, t, opts.maxFile, n).entries);
    }
  }

  /** An instance of the limits that do not fit: with both size limits at the largest int64, a
      second entry makes the sum of extraction wrap to a negative total that passes. */
  lemma OverflowDisagrees(rules: Rules, name: string)
    requires rules.fault(name).None?
    ensures var opts := Options(10, MAX_INT64, MAX_INT64);
            var e := Entry(name, true, MAX_INT64, seq(MAX_INT64, i => 0));
            var a := Archive([e, e], true, [], true);
            ScanFrom(rules, opts, a, 0) == Err(TotalTooLarge) && ChecksFrom(rules, opts, a, 0).Ok?
  {
    var opts := Options(10, MAX_INT64, MAX_INT64);
    var e := Entry(name, true, MAX_INT64, seq(MAX_INT64, i => 0));
    var a := Archive([e, e], true, [], true);
    assert Total(a.entries, 1) == MAX_INT64;
    assert Total(a.entries, 2) == Wrap64(2 * MAX_INT64) == -2;
    assert ScanFrom(rules, opts, a, 1) == Err(TotalTooLarge);
    assert ChecksFrom(rules, opts, a, 2).Ok?;
    assert ChecksFrom(rules, opts, a, 1) == ChecksFrom(rules, opts, a, 2);
  }

  /** The checks of Scan on one entry. */
  method Refuse(rules: Rules, opts: Options, count: nat, total: Int64, e: Entry) returns (r: Option<TarError>)
    ensures r == ScanAdmits(rules, opts, count, total, e)
  {
    if !e.regular { return Some(NotRegular); }
    if rules.fault(e.name).Some? { return Some(BadName); }
    if count >= opts.maxFiles { return Some(TooManyFiles); }
    if e.size > opts.maxFile { return Some(FileTooLarge); }
    if e.size < 0 || total > Wrap64(opts.maxTotal - e.size) { return Some(TotalTooLarge); }
    if |e.data| < e.size { return Some(Truncated); }
    return None;
  }

  /** The loop of Scan over the entries. */
  method ScanEntries(rules: Rules, opts: Options, a: Archive)
    returns (names: seq<string>, failure: Option<TarError>, total: Int64)
    ensures failure.Some? ==> ScanFrom(rules, opts, a, 0) == Err(failure.value)
    ensures failure.None? ==>
              && names == Names(a.entries) && total == Total(a.entries, |a.entries|)
              && ScanFrom(rules, opts, a, 0) == ScanFrom(rules, opts, a, |a.entries|)
  {
    names, total := [], 0;
    var k := 0;
    while k < |a.entries|
      invariant k <= |a.entries| && total == Total(a.entries, k)
      invariant |names| == k && forall i :: 0 <= i < k ==> names[i] == a.entries[i].name
      invariant ScanFrom(rules, opts, a, 0) == ScanFrom(rules, opts, a, k)
    {
      var e := a.entries[k];
      failure := Refuse(rules, opts, |names|, total, e);
      if failure.Some? {
        return;
      }
      names := names + [e.name];
      total := Wrap64(total + e.size);
      k := k + 1;
    }
    failure := None;
  }

  /** Scan. */
  method Scan(rules: Rules, options: Options, a: Archive) returns (names: seq<string>, r: Result<Info, TarError>)
    ensures r == ScanFrom(rules, WithDefaults(options), a, 0)
    ensures r.Ok? ==> names == Names(a.entries)
  {
    var opts := WithDefaults(options);
    var failure, total;
    names, failure, total := ScanEntries(rules, opts, a);
    if failure.Some? { return names, Err(failure.value); }
    if !a.terminated { return names, Err(BadHeader); }
    var tail := Drain(a.tail, a.ended, opts.maxTotal, total);
    match tail {
      case Ok(n) => return names, Ok(Info(|names|, Wrap64(total + n)));
      case Err(e) => return names, Err(e);
    }
  }
}
