/** Streaming verification against batch verification (internal/ociblob, internal/digestio,
    artifact/component_stream.go, and fetchBlobToFile of registry/pull.go). */
module Streaming {
  import opened Prelude

  /** One read of a source that is not its last: data, possibly beside an error. */
  datatype Chunk = Data(bytes: Bytes) | Fail(bytes: Bytes)

  /** How a byte source answers a sequence of reads: the chunks, then the last data, which may be
      empty, together with the end of the stream. */
  datatype Source = Source(chunks: seq<Chunk>, last: Bytes)

  /** An incremental hash: writing pieces one after another is writing them at once. */
  datatype Hash<!S> = Hash(init: S, update: (S, Bytes) -> S, final: S -> string)

  ghost predicate Incremental<S(!new)>(h: Hash<S>) {
    && (forall s: S :: h.update(s, []) == s)
    && (forall s: S, a: Bytes, b: Bytes {:trigger h.update(h.update(s, a), b)} ::
          h.update(h.update(s, a), b) == h.update(s, a + b))
  }

  function DigestOf<S>(h: Hash<S>, content: Bytes): string {
    h.final(h.update(h.init, content))
  }

  datatype Descriptor = Descriptor(digest: string, size: Int64)

  /** Validate: the digest is well formed and canonical, the size not negative. */
  predicate ValidDescriptor(wellFormed: string -> bool, desc: Descriptor) {
    wellFormed(desc.digest) && desc.size >= 0
  }

  /** Verify, the batch form. */
  predicate BatchVerify<S>(h: Hash<S>, wellFormed: string -> bool, desc: Descriptor, content: Bytes) {
    ValidDescriptor(wellFormed, desc) && |content| == desc.size && DigestOf(h, content) == desc.digest
  }

  /** What the first n reads deliver; read |chunks| + 1 and all later ones end the stream. */
  function Delivered(s: Source, n: nat): Bytes {
    if n == 0 then []
    else if n <= |s.chunks| then Delivered(s, n - 1) + s.chunks[n - 1].bytes
    else Delivered(s, |s.chunks|) + s.last
  }

  function Content(s: Source): Bytes {
    Delivered(s, |s.chunks| + 1)
  }

  /** No read from the n-th on fails. */
  ghost predicate Reliable(s: Source, n: nat) {
    forall i :: n <= i < |s.chunks| ==> s.chunks[i].Data?
  }

  lemma {:induction false} DeliveredGrows(s: Source, n: nat)
    ensures Delivered(s, n) <= Content(s)
    decreases |s.chunks| + 1 - n
  {
    if n <= |s.chunks| {
      DeliveredGrows(s, n + 1);
      var more := if n < |s.chunks| then s.chunks[n].bytes else s.last;
      assert Delivered(s, n + 1) == Delivered(s, n) + more;
    } else {
      assert Delivered(s, n) == Content(s);
    }
  }

  datatype Signal = More | End | Error

  /** A stateful reader over a source. */
  class SourceReader {
    const source: Source
    var next: nat

    constructor (source: Source)
      ensures this.source == source && next == 0
    {
      this.source, next := source, 0;
    }

    ghost predicate Valid()
      reads this
    {
      next <= |source.chunks| + 1
    }

    method Read() returns (data: Bytes, signal: Signal)
      requires Valid()
      modifies this
      ensures Valid() && next == if old(next) <= |source.chunks| then old(next) + 1 else old(next)
      ensures Delivered(source, next) == Delivered(source, old(next)) + data
      ensures signal == if old(next) >= |source.chunks| then End
                        else if source.chunks[old(next)].Data? then More else Error
    {
      if next > |source.chunks| {
        return [], End;
      }
      next := next + 1;
      if next > |source.chunks| {
        return source.last, End;
      }
      return source.chunks[next - 1].bytes, if source.chunks[next - 1].Data? then More else Error;
    }
  }

  /** What a read of the verifying stream reports besides data. */
  datatype Outcome = Continues | CleanEnd | ReadError | Mismatch

  /** The signal of the read after n reads. */
  function SignalAt(s: Source, n: nat): Signal {
    if n >= |s.chunks| then End else if s.chunks[n].Data? then More else Error
  }

  /** The data of the read after n reads. */
  function DataAt(s: Source, n: nat): Bytes {
    if n < |s.chunks| then s.chunks[n].bytes else if n == |s.chunks| then s.last else []
  }

  /** The outcome of the read after n reads. */
  function OutcomeAt<S>(h: Hash<S>, desc: Descriptor, s: Source, n: nat): Outcome {
    var soFar := Delivered(s, n + 1);
    if DataAt(s, n) != [] && |soFar| > desc.size then Mismatch
    else match SignalAt(s, n)
      case More => Continues
      case Error => ReadError
      case End => if |soFar| == desc.size && DigestOf(h, soFar) == desc.digest then CleanEnd else Mismatch
  }

  lemma {:induction false} DeliveredMonotone(s: Source, m: nat, n: nat)
    requires m <= n
    ensures |Delivered(s, m)| <= |Delivered(s, n)|
    decreases n - m
  {
    if m < n {
      DeliveredMonotone(s, m, n - 1);
      if n == |s.chunks| + 1 { assert Delivered(s, n) == Delivered(s, n - 1) + s.last; }
    }
  }

  /** The stream ends cleanly only at its end, and only if the batch form accepts the whole
      content, however it was cut into reads. */
  lemma CleanEndMeansBatch<S>(h: Hash<S>, wellFormed: string -> bool, desc: Descriptor, s: Source, n: nat)
    requires ValidDescriptor(wellFormed, desc)
    ensures OutcomeAt(h, desc, s, n) == CleanEnd <==>
            n >= |s.chunks| && BatchVerify(h, wellFormed, desc, Content(s))
    ensures BatchVerify(h, wellFormed, desc, Content(s)) <==>
            |Content(s)| == desc.size && h.final(h.update(h.init, Content(s))) == desc.digest
  {
    DeliveredGrows(s, n + 1);
  }

  /** After a detected mismatch no later read ends cleanly. */
  lemma MismatchIsFinal<S>(h: Hash<S>, desc: Descriptor, s: Source, n: nat, later: nat)
    requires OutcomeAt(h, desc, s, n) == Mismatch && n <= later
    ensures OutcomeAt(h, desc, s, later) != CleanEnd
  {
    DeliveredMonotone(s, n + 1, later + 1);
  }

  /** Size and digest are those of the descriptor. */
  predicate Matches<S>(h: Hash<S>, desc: Descriptor, content: Bytes) {
    |content| == desc.size && DigestOf(h, content) == desc.digest
  }

  lemma EndReached<S>(h: Hash<S>, desc: Descriptor, s: Source, start: nat, at: nat)
    requires start <= at && OutcomeAt(h, desc, s, at) == CleanEnd
    requires forall i :: start <= i < at ==> OutcomeAt(h, desc, s, i) == Continues
    ensures Reliable(s, start) && Matches(h, desc, Content(s))
  {
    forall i | start <= i < |s.chunks| ensures s.chunks[i].Data? {
      assert OutcomeAt(h, desc, s, i) == Continues;
    }
  }

  lemma Stopped<S>(h: Hash<S>, desc: Descriptor, s: Source, start: nat, at: nat)
    requires start <= at && OutcomeAt(h, desc, s, at) in {ReadError, Mismatch}
    ensures !(Reliable(s, start) && Matches(h, desc, Content(s)))
  {
    DeliveredGrows(s, at + 1);
  }

  /** VerifyingReadCloser. */
  class VerifyingReader<S(!new)> {
    const rc: SourceReader
    const h: Hash<S>
    const expected: Descriptor
    var state: S
    var size: Int64

    constructor (rc: SourceReader, h: Hash<S>, expected: Descriptor)
      requires rc.next == 0 && Incremental(h) && expected.size >= 0 && |Content(rc.source)| <= MAX_INT64
      ensures Valid() && this.rc == rc && this.h == h && this.expected == expected
    {
      this.rc, this.h, this.expected := rc, h, expected;
      state, size := h.init, 0;
    }

    /** The running size and hash state are those of everything delivered; no stream has more
        bytes than the size field can count. */
    ghost predicate Valid()
      reads this, rc
    {
      && rc.Valid() && Incremental(h) && expected.size >= 0 && |Content(rc.source)| <= MAX_INT64
      && size == |Delivered(rc.source, rc.next)|
      && state == h.update(h.init, Delivered(rc.source, rc.next))
    }

    /** Read. */
    method Read() returns (data: Bytes, outcome: Outcome)
      requires Valid()
      modifies this, rc
      ensures Valid()
      ensures rc.next == if old(rc.next) <= |rc.source.chunks| then old(rc.next) + 1 else old(rc.next)
      ensures Delivered(rc.source, rc.next) == Delivered(rc.source, old(rc.next)) + data
      ensures outcome == OutcomeAt(h, expected, rc.source, old(rc.next))
    {
      ghost var before := Delivered(rc.source, rc.next);
      var signal;
      data, signal := rc.Read();
      DeliveredGrows(rc.source, rc.next);
      assert data == [] ==> before + data == before;
      if |data| > 0 {
        state := h.update(state, data);
        size := Wrap64(size + |data|);
        if size > expected.size {
          return data, Mismatch;
        }
      }
      if signal == End {
        if size != expected.size {
          return data, Mismatch;
        }
        if h.final(state) != expected.digest {
          return data, Mismatch;
        }
        return data, CleanEnd;
      }
      return data, if signal == More then Continues else ReadError;
    }

    /** Reads to the end or to the first error, as io.Copy does, from wherever the stream is. */
    method Drain() returns (clean: bool)
      requires Valid()
      modifies this, rc
      ensures Valid()
      ensures clean <==> Reliable(rc.source, old(rc.next)) && Matches(h, expected, Content(rc.source))
    {
      ghost var start := rc.next;
      ghost var s := rc.source;
      while true
        invariant Valid() && start <= rc.next && (rc.next > start ==> rc.next <= |s.chunks|)
        invariant forall i :: start <= i < rc.next ==> OutcomeAt(h, expected, s, i) == Continues
        decreases |s.chunks| + 1 - rc.next
      {
        ghost var at := rc.next;
        var piece, outcome := Read();
        if outcome == CleanEnd {
          EndReached(h, expected, s, start, at);
          return true;
        }
        if outcome != Continues {
          Stopped(h, expected, s, start, at);
          return false;
        }
      }
    }
  }

  /** io.Copy of a plain stream to nowhere. */
  method Discard(r: SourceReader) returns (ok: bool)
    requires r.Valid()
    modifies r
    ensures r.Valid() && (ok <==> Reliable(r.source, old(r.next)))
  {
    ghost var start := r.next;
    while true
      invariant r.Valid() && start <= r.next && (r.next > start ==> r.next <= |r.source.chunks|)
      invariant forall i :: start <= i < r.next ==> r.source.chunks[i].Data?
      decreases |r.source.chunks| + 1 - r.next
    {
      var piece, signal := r.Read();
      if signal == End {
        return true;
      }
      if signal == Error {
        return false;
      }
    }
  }

  /** finishComponentStream: the rest of the decompressed stream, its close, the rest of the raw
      stream, its close. Success proves the whole raw blob, wherever the decompressor stopped. */
  method FinishComponentStream<S(!new)>(decompressed: SourceReader, decompressorCloses: bool,
                                        raw: VerifyingReader<S>, rawCloses: bool)
    returns (ok: bool)
    requires decompressed.Valid() && raw.Valid() && decompressed != raw.rc
    modifies decompressed, raw, raw.rc
    ensures ok <==>
              && Reliable(decompressed.source, old(decompressed.next)) && decompressorCloses
              && Reliable(raw.rc.source, old(raw.rc.next)) && Matches(raw.h, raw.expected, Content(raw.rc.source))
              && rawCloses
  {
    var tail := Discard(decompressed);
    if !tail || !decompressorCloses {
      return false;
    }
    var clean := raw.Drain();
    return clean && rawCloses;
  }

  /** Writer: hashes and counts what its destination accepts. The destination, a file of a
      temporary name, takes at most room more bytes. */
  class DigestWriter<S(!new)> {
    const h: Hash<S>
    var contents: Bytes
    var room: nat
    var state: S
    var size: Int64

    constructor (h: Hash<S>, room: nat)
      requires Incremental(h)
      ensures Valid() && this.h == h && this.room == room && contents == []
    {
      this.h, this.room := h, room;
      contents, state, size := [], h.init, 0;
    }

    ghost predicate Valid()
      reads this
    {
      Incremental(h) && state == h.update(h.init, contents) && size == |contents|
    }

    /** Write: a short write is an error, and what did reach the destination is accounted for. */
    method Write(p: Bytes) returns (ok: bool)
      requires Valid() && |contents| + |p| <= MAX_INT64
      modifies this
      ensures Valid() && (ok <==> |p| <= old(room))
      ensures ok ==> contents == old(contents) + p && room == old(room) - |p|
      ensures !ok ==> contents == old(contents) + p[..old(room)] && room == 0
    {
      var n := if |p| <= room then |p| else room;
      ok := n == |p|;
      assert ok ==> p[..n] == p;
      contents := contents + p[..n];
      room := room - n;
      state := h.update(state, p[..n]);
      size := Wrap64(size + n);
    }

    /** Digest and Size describe exactly what the destination holds. */
    method Sum() returns (digest: string, written: Int64)
      requires Valid()
      ensures digest == DigestOf(h, contents) && written == |contents|
    {
      return h.final(state), size;
    }
  }

  lemma Cut(before: Bytes, data: Bytes, n: nat, all: Bytes)
    requires before + data <= all && n <= |data|
    ensures before + data[..n] <= all
  {
  }

  /** io.LimitReader over a fresh source. */
  class LimitedReader {
    const r: SourceReader
    const limit: Int64
    var left: Int64
    ghost var given: Bytes

    constructor (r: SourceReader, limit: Int64)
      requires r.Valid() && r.next == 0 && 0 < limit
      ensures Valid() && this.r == r && this.limit == limit && given == []
    {
      this.r, this.limit := r, limit;
      left, given := limit, [];
    }

    /** Either everything delivered so far has been passed on, or the limit is used up. */
    ghost predicate Valid()
      reads this, r
    {
      && r.Valid() && 0 <= left == limit - |given| && given <= Content(r.source)
      && (left > 0 ==> given == Delivered(r.source, r.next))
      && forall i :: 0 <= i < r.next && i < |r.source.chunks| && left > 0 ==> r.source.chunks[i].Data?
    }

    method Read() returns (data: Bytes, signal: Signal)
      requires Valid() && (left > 0 ==> r.next <= |r.source.chunks|)
      modifies this, r
      ensures signal != Error ==> Valid() && given == old(given) + data
      ensures signal == Error ==> !Reliable(r.source, 0) && given == old(given) + data && |given| <= limit
      ensures signal == More ==> (left == 0 || r.next <= |r.source.chunks|) && r.next == old(r.next) + 1
      ensures signal == End ==> left == 0 || (given == Content(r.source) && Reliable(r.source, 0))
    {
      if left == 0 {
        return [], End;
      }
      ghost var at := r.next;
      data, signal := r.Read();
      DeliveredGrows(r.source, r.next);
      if |data| > left {
        Cut(given, data, left, Content(r.source));
        data := data[..left];
        signal := More;
      }
      left := left - |data|;
      given := given + data;
    }
  }

  /** io.Copy through the limit, into the writer. */
  method CopyLimited<S(!new)>(lr: LimitedReader, w: DigestWriter<S>) returns (ok: bool)
    requires lr.Valid() && lr.r.next == 0 && lr.given == [] && w.Valid() && w.contents == []
    modifies lr, lr.r, w
    ensures w.Valid()
    ensures ok ==> w.contents <= Content(lr.r.source)
                   && (|w.contents| == lr.limit || (w.contents == Content(lr.r.source) && Reliable(lr.r.source, 0)))
                   && |w.contents| <= old(w.room)
    ensures !ok ==> !Reliable(lr.r.source, 0) || |Content(lr.r.source)| > old(w.room)
  {
    while true
      invariant lr.Valid() && w.Valid() && w.contents == lr.given
      invariant lr.left > 0 ==> lr.r.next <= |lr.r.source.chunks|
      invariant w.room + |w.contents| == old(w.room)
      decreases lr.left > 0, |lr.r.source.chunks| + 1 - lr.r.next
    {
      var data, signal := lr.Read();
      var written := w.Write(data);
      if !written || signal == Error {
        return false;
      }
      if signal == End {
        return true;
      }
    }
  }

  /** fetchBlobToFile: what is renamed into place, if anything. */
  method FetchBlobToFile<S(!new)>(h: Hash<S>, wellFormed: string -> bool, desc: Descriptor, isConfig: bool,
                                  r: SourceReader, room: nat)
    returns (published: Option<Bytes>)
    requires Incremental(h) && r.Valid() && r.next == 0
    modifies r
    ensures published.Some? <==>
              && wellFormed(desc.digest) && Reliable(r.source, 0)
              && |Content(r.source)| == desc.size && DigestOf(h, Content(r.source)) == desc.digest
              && desc.size < MAX_INT64 && (isConfig ==> desc.size <= MAX_METADATA_SIZE)
              && |Content(r.source)| <= room
    ensures published.Some? ==> published.value == Content(r.source)
  {
    if !ValidDescriptor(wellFormed, desc) || desc.size == MAX_INT64 || (isConfig && desc.size > MAX_METADATA_SIZE) {
      return None;
    }
    var w := new DigestWriter(h, room);
    var limited := new LimitedReader(r, desc.size + 1);
    var copied := CopyLimited(limited, w);
    if !copied {
      return None;
    }
    var digest, written := w.Sum();
    if digest != desc.digest || written != desc.size {
      return None;
    }
    return Some(w.contents);
  }
}
