/** The streaming bitrot writer and reader (cmd/bitrot-streaming.go). */
module BitrotStreaming {
  import opened Basics
  import opened BitrotLayout

  // ----- Writer

  /** Answer of the underlying writer to one call: bytes taken and whether it failed. */
  datatype SinkReply = SinkReply(n: nat, failed: bool)

  datatype WriteError = NoError | SinkFailed | ShortWrite

  /** What one call of `Write` appends when nothing fails. */
  function Written(h: HashAlgorithm, p: Bytes): Bytes {
    if p == [] then [] else h.sum(p) + p
  }

  lemma PartlyWritten(out: Bytes, digest: Bytes, p: Bytes, i: nat, j: nat)
    requires i <= |digest| && j <= |p|
    ensures out <= out + digest[..i] <= out + (digest + p)
    ensures i == |digest| ==> out <= out + digest[..i] + p[..j] <= out + (digest + p)
    ensures i == |digest| && j == |p| ==> out + digest[..i] + p[..j] == out + (digest + p)
  {
  }

  class StreamingBitrotWriter {
    const h: HashAlgorithm
    var hashed: Bytes  // fed to the hash since its last reset
    var out: Bytes     // accepted by the underlying writer
    var closed: bool   // closeWithErr was called

    constructor (h: HashAlgorithm)
      ensures this.h == h && out == [] && !closed
    {
      this.h := h;
      hashed, out, closed := [], [], false;
    }

    method Write(p: Bytes, onDigest: SinkReply, onBlock: SinkReply) returns (n: nat, err: WriteError)
      requires h.Valid()
      requires onDigest.n <= h.size && (onDigest.n < h.size ==> onDigest.failed)
      requires onBlock.n <= |p|
      modifies this
      ensures err == NoError <==> p == [] || (!onDigest.failed && !onBlock.failed && onBlock.n == |p|)
      ensures err == ShortWrite <==> p != [] && !onDigest.failed && !onBlock.failed && onBlock.n < |p|
      ensures n == if p == [] || onDigest.failed then 0 else onBlock.n
      ensures out == if p == [] then old(out)
                     else if onDigest.failed then old(out) + h.sum(p)[..onDigest.n]
                     else old(out) + h.sum(p)[..onDigest.n] + p[..onBlock.n]
      ensures closed == (old(closed) || err != NoError)
      ensures err == NoError ==> n == |p| && out == old(out) + Written(h, p)
      ensures err != NoError ==> old(out) <= out <= old(out) + Written(h, p)
    {
      if p == [] {
        return 0, NoError;
      }
      hashed := [];
      hashed := hashed + p;
      var digest := h.sum(hashed);
      assert hashed == p;
      ghost var before := out;
      out := out + digest[..onDigest.n];
      PartlyWritten(before, digest, p, onDigest.n, onBlock.n);
      if onDigest.failed {
        closed := true;
        return 0, SinkFailed;
      }
      out := out + p[..onBlock.n];
      n := onBlock.n;
      if onBlock.failed {
        closed := true;
        return n, SinkFailed;
      }
      err := NoError;
      if n != |p| {
        err := ShortWrite;
        closed := true;
      }
    }
  }

  function WrittenAll(h: HashAlgorithm, chunks: seq<Bytes>): Bytes {
    if chunks == [] then [] else Written(h, chunks[0]) + WrittenAll(h, chunks[1..])
  }

  /** Every non-empty chunk is `shardSize` long, except that the last may be shorter. */
  predicate WellChunked(chunks: seq<Bytes>, shardSize: nat) {
    chunks == [] ||
    (&& |chunks[0]| <= shardSize
     && (chunks[0] != [] && Flatten(chunks[1..]) != [] ==> |chunks[0]| == shardSize)
     && WellChunked(chunks[1..], shardSize))
  }

  lemma {:induction false} WellChunkedWritesStream(h: HashAlgorithm, chunks: seq<Bytes>, shardSize: nat)
    requires shardSize > 0 && WellChunked(chunks, shardSize)
    ensures WrittenAll(h, chunks) == Stream(h, Flatten(chunks), shardSize)
  {
    if chunks != [] {
      var c, rest := chunks[0], Flatten(chunks[1..]);
      WellChunkedWritesStream(h, chunks[1..], shardSize);
      if c == [] {
        assert c + rest == rest;
      } else if rest == [] {
        assert c + rest == c && c[..|c|] == c && c[|c|..] == [];
      } else {
        assert (c + rest)[..shardSize] == c && (c + rest)[shardSize..] == rest;
      }
    }
  }

  lemma WrittenAllStep(h: HashAlgorithm, chunks: seq<Bytes>, i: nat, out: Bytes)
    requires i < |chunks|
    ensures out + WrittenAll(h, chunks[i..]) == out + Written(h, chunks[i]) + WrittenAll(h, chunks[i + 1..])
  {
    assert chunks[i..][1..] == chunks[i + 1..];
    Assoc(out, Written(h, chunks[i]), WrittenAll(h, chunks[i + 1..]));
  }

  lemma NothingWritten(h: HashAlgorithm)
    ensures WrittenAll(h, []) == []
  {
  }

  /** Driving the writer over a payload produces its stream, of the announced size. */
  method WritePayload(h: HashAlgorithm, chunks: seq<Bytes>, shardSize: nat) returns (file: Bytes)
    requires h.Valid() && shardSize > 0 && WellChunked(chunks, shardSize)
    ensures file == Stream(h, Flatten(chunks), shardSize)
    ensures |file| == AnnouncedFileSize(h, |Flatten(chunks)|, shardSize)
  {
    hide WellChunked, Stream, WrittenAll, Flatten;
    var w := new StreamingBitrotWriter(h);
    assert chunks[0..] == chunks;
    for i := 0 to |chunks|
      invariant w.h == h && w.out + WrittenAll(h, chunks[i..]) == WrittenAll(h, chunks)
    {
      WrittenAllStep(h, chunks, i, w.out);
      var n, err := w.Write(chunks[i], SinkReply(h.size, false), SinkReply(|chunks[i]|, false));
    }
    NothingWritten(h);
    assert chunks[|chunks|..] == [] && w.out + [] == w.out;
    WellChunkedWritesStream(h, chunks, shardSize);
    StreamLength(h, Flatten(chunks), shardSize);
    file := w.out;
  }

  // ----- Reader

  datatype ReadResult = Ok(bytes: Bytes) | Unexpected | DiskFailed | EndOfStream | FileCorrupt

  /** Fixed at construction. `tillOffset` is a position in the stream, not in the payload;
      `data` is the inlined copy of the file, empty when the file is on disk only. */
  datatype ReaderConfig = ReaderConfig(h: HashAlgorithm, shardSize: nat, tillOffset: int, data: Bytes, file: Bytes) {
    ghost predicate Valid() {
      h.Valid() && shardSize > 0
    }

    function Source(): Bytes {
      if data == [] then file else data
    }
  }

  /** `rc` holds the bytes left in the opened stream, `currOffset` a payload position. */
  datatype ReaderState = ReaderState(rc: Option<Bytes>, currOffset: int)

  const CLOSED := ReaderState(None, 0)

  function NewReader(h: HashAlgorithm, shardSize: nat, till: nat, data: Bytes, file: Bytes): ReaderConfig {
    ReaderConfig(h, shardSize, CeilFrac(till, shardSize) * h.size + till, data, file)
  }

  /** A reader limited to `n` bytes from `off`. */
  function Section(b: Bytes, off: nat, n: int): Bytes {
    if off >= |b| || n <= 0 then [] else b[off..Min(|b|, off + n)]
  }

  function OpenStream(c: ReaderConfig, offset: nat, diskOk: bool): Option<Bytes>
    requires c.shardSize > 0
  {
    var streamOffset: nat := offset / c.shardSize * c.h.size + offset;
    if c.data == [] && c.tillOffset != streamOffset then
      if diskOk && c.tillOffset <= |c.file| then Some(Section(c.file, streamOffset, c.tillOffset - streamOffset))
      else None
    else Some(Section(c.data, streamOffset, c.tillOffset - streamOffset))
  }

  /** Effect and result of one call. */
  function ReadStep(c: ReaderConfig, st: ReaderState, n: nat, offset: nat, diskOk: bool): (ReaderState, ReadResult)
    requires c.shardSize > 0
  {
    if offset % c.shardSize != 0 then (st, Unexpected)
    else
      var rc := if st.rc.None? then OpenStream(c, offset, diskOk) else st.rc;
      var curr := if st.rc.None? then offset else st.currOffset;
      // a disk that answers refuses only a file shorter than asked for
      if rc.None? then (ReaderState(None, curr), if diskOk then FileCorrupt else DiskFailed)
      else if offset != curr then (ReaderState(rc, curr), Unexpected)
      else ReadBlock(c, rc.value, n, curr)
  }

  function ReadBlock(c: ReaderConfig, rem: Bytes, n: nat, curr: int): (ReaderState, ReadResult) {
    if |rem| < c.h.size + n then (ReaderState(Some([]), curr), EndOfStream)
    else
      var block := rem[c.h.size..c.h.size + n];
      var rest := Some(rem[c.h.size + n..]);
      if c.h.sum(block) != rem[..c.h.size] then (ReaderState(rest, curr), FileCorrupt)
      else (ReaderState(rest, curr + n), Ok(block))
  }

  /** What a read of `n` bytes gives when `rem` is left in the stream: the block if its digest
      matches, corruption if it does not, the end of the stream if there is too little. */
  predicate IsOutcome(h: HashAlgorithm, rem: Bytes, n: nat, res: ReadResult) {
    && (res == EndOfStream <==> |rem| < h.size + n)
    && (res == FileCorrupt <==> h.size + n <= |rem| && h.sum(rem[h.size..h.size + n]) != rem[..h.size])
    && (res.Ok? <==> HasBlock(h, rem, n))
    && (res.Ok? ==> res.bytes == rem[h.size..h.size + n])
  }

  class StreamingBitrotReader {
    const c: ReaderConfig
    var rc: Option<Bytes>
    var currOffset: int
    var hashBytes: Bytes

    ghost function State(): ReaderState
      reads this
    {
      ReaderState(rc, currOffset)
    }

    constructor (c: ReaderConfig)
      ensures this.c == c && State() == CLOSED
    {
      this.c := c;
      rc, currOffset, hashBytes := None, 0, [];
    }

    /** io.ReadFull: fills the whole buffer or fails, consuming what there was. */
    method ReadFull(n: nat) returns (ok: bool, buf: Bytes)
      requires rc.Some?
      modifies this`rc
      ensures ok == (n <= |old(rc).value|)
      ensures if ok then buf == old(rc).value[..n] && rc == Some(old(rc).value[n..]) else rc == Some([])
    {
      var rem := rc.value;
      ok := n <= |rem|;
      buf := if ok then rem[..n] else rem;
      rc := Some(if ok then rem[n..] else []);
    }

    method ReadAt(n: nat, offset: nat, diskOk: bool) returns (res: ReadResult)
      requires c.Valid()
      modifies this
      ensures (State(), res) == ReadStep(c, old(State()), n, offset, diskOk)
      ensures res == Unexpected <==> offset % c.shardSize != 0 || (old(rc).Some? && offset != old(currOffset))
      ensures old(rc).None? && res != Unexpected ==>
                (res == DiskFailed <==> c.data == [] && c.tillOffset != offset / c.shardSize * c.h.size + offset && !diskOk)
      ensures old(rc).Some? && res != Unexpected ==> IsOutcome(c.h, old(rc).value, n, res)
      ensures currOffset == if res.Ok? then offset + n
                            else if old(rc).None? && res != Unexpected then offset else old(currOffset)
      ensures old(rc).Some? && res.Ok? ==> rc == Some(old(rc).value[c.h.size + n..])
    {
      if offset % c.shardSize != 0 {
        return Unexpected;
      }
      if rc.None? {
        currOffset := offset;
        rc := OpenStream(c, offset, diskOk);
        if rc.None? {
          return if diskOk then FileCorrupt else DiskFailed;
        }
      }
      if offset != currOffset {
        return Unexpected;
      }
      res := ReadDigestAndBlock(n);
    }

    method ReadDigestAndBlock(n: nat) returns (res: ReadResult)
      requires c.Valid() && rc.Some?
      modifies this
      ensures (State(), res) == ReadBlock(c, old(rc).value, n, old(currOffset))
    {
      ghost var rem := rc.value;
      var ok, digest := ReadFull(c.h.size);
      if !ok {
        return EndOfStream;
      }
      hashBytes := digest;
      var buf;
      ok, buf := ReadFull(n);
      if !ok {
        return EndOfStream;
      }
      assert buf == rem[c.h.size..c.h.size + n] && rc.value == rem[c.h.size + n..];
      if c.h.sum(buf) != hashBytes {
        return FileCorrupt;
      }
      currOffset := currOffset + n;
      return Ok(buf);
    }
  }

  // ----- Runs of consecutive reads

  /** Consecutive reads of the given lengths, up to the first error. */
  function ReadRun(c: ReaderConfig, st: ReaderState, offset: nat, lens: seq<nat>): Option<seq<Bytes>>
    requires c.shardSize > 0
    decreases |lens|
  {
    if lens == [] then Some([])
    else
      var (st', res) := ReadStep(c, st, lens[0], offset, true);
      if !res.Ok? then None else Prepend(res.bytes, ReadRun(c, st', offset + lens[0], lens[1..]))
  }

  function OpenRun(c: ReaderConfig, rem: Bytes, offset: nat, m: nat): Option<seq<Bytes>>
    requires c.shardSize > 0
  {
    ReadRun(c, ReaderState(Some(rem), offset), offset, BlockLens(m, c.shardSize))
  }

  /** The block lengths that cover the payload range of length `m` starting at a block. */
  function BlockLens(m: nat, shardSize: nat): seq<nat>
    requires shardSize > 0
    decreases m
  {
    if m == 0 then [] else
      var n := Min(shardSize, m);
      [n] + BlockLens(m - n, shardSize)
  }

  lemma OpenRunStep(c: ReaderConfig, rem: Bytes, offset: nat, m: nat)
    requires c.Valid() && Aligned(offset, c.shardSize) && m > 0
    ensures var n: nat := Min(c.shardSize, m);
            OpenRun(c, rem, offset, m) ==
            if !HasBlock(c.h, rem, n) then None
            else Prepend(rem[c.h.size..c.h.size + n], OpenRun(c, rem[c.h.size + n..], offset + n, m - n))
  {
    AlignedIsMod(offset, c.shardSize);
    var n, lens := Min(c.shardSize, m), BlockLens(m, c.shardSize);
    assert lens[0] == n && lens[1..] == BlockLens(m - n, c.shardSize);
  }

  lemma EmptyRun(c: ReaderConfig, rem: Bytes, offset: nat)
    requires c.shardSize > 0
    ensures OpenRun(c, rem, offset, 0) == Some([]) && Flatten([]) == []
    ensures StartsWithStream(c.h, rem, 0, c.shardSize) && Payload(c.h, rem, 0, c.shardSize) == []
  {
  }

  /** Reading `m` bytes block by block from an opened stream succeeds exactly when the
      stream starts with the protected form of some payload, and returns that payload. */
  lemma {:induction false} OpenRunAccepts(c: ReaderConfig, rem: Bytes, offset: nat, m: nat)
    requires c.Valid() && Aligned(offset, c.shardSize)
    ensures OpenRun(c, rem, offset, m).Some? <==> StartsWithStream(c.h, rem, m, c.shardSize)
    ensures OpenRun(c, rem, offset, m).Some? ==>
              Flatten(OpenRun(c, rem, offset, m).value) == Payload(c.h, rem, m, c.shardSize)
    decreases m
  {
    hide OpenRun, StartsWithStream, Payload, Aligned, Prepend, Flatten;
    if m == 0 {
      EmptyRun(c, rem, offset);
    } else {
      var n: nat := Min(c.shardSize, m);
      OpenRunStep(c, rem, offset, m);
      FoundUnfold(c.h, rem, m, c.shardSize);
      if HasBlock(c.h, rem, n) {
        var rest := rem[c.h.size + n..];
        if n == c.shardSize {
          AlignedUp(offset, c.shardSize);
          OpenRunAccepts(c, rest, offset + n, m - n);
        } else {
          EmptyRun(c, rest, offset + n);
        }
      }
    }
  }

  // ----- The first error

  /** The first error of consecutive reads, and how many bytes came before it. */
  function FirstError(c: ReaderConfig, st: ReaderState, offset: nat, lens: seq<nat>): Option<(nat, ReadResult)>
    requires c.shardSize > 0
    decreases |lens|
  {
    if lens == [] then None
    else
      var (st', res) := ReadStep(c, st, lens[0], offset, true);
      if !res.Ok? then Some((0, res))
      else Later(lens[0], FirstError(c, st', offset + lens[0], lens[1..]))
  }

  function Later(n: nat, error: Option<(nat, ReadResult)>): Option<(nat, ReadResult)> {
    if error.None? then None else Some((n + error.value.0, error.value.1))
  }

  /** The block after the first `pos` of `m` payload bytes is the first one that is not
      intact: its digest differs, or it is not there in full. */
  ghost predicate FailsAt(h: HashAlgorithm, d: Bytes, m: nat, shardSize: nat, pos: nat, res: ReadResult)
    requires shardSize > 0
  {
    && pos < m && Aligned(pos, shardSize)
    && StartsWithStream(h, d, pos, shardSize)
    && !StartsWithStream(h, d, Min(pos + shardSize, m), shardSize)
    && res == if StreamSize(h, Min(pos + shardSize, m), shardSize) <= |d| then FileCorrupt else EndOfStream
  }

  lemma FirstErrorStep(c: ReaderConfig, rem: Bytes, offset: nat, m: nat)
    requires c.Valid() && Aligned(offset, c.shardSize) && m > 0
    ensures var n: nat := Min(c.shardSize, m);
            FirstError(c, ReaderState(Some(rem), offset), offset, BlockLens(m, c.shardSize)) ==
            if |rem| < c.h.size + n then Some((0, EndOfStream))
            else if !HasBlock(c.h, rem, n) then Some((0, FileCorrupt))
            else Later(n, FirstError(c, ReaderState(Some(rem[c.h.size + n..]), offset + n), offset + n, BlockLens(m - n, c.shardSize)))
  {
    AlignedIsMod(offset, c.shardSize);
    var n, lens := Min(c.shardSize, m), BlockLens(m, c.shardSize);
    assert lens[0] == n && lens[1..] == BlockLens(m - n, c.shardSize);
  }

  lemma FailsHere(h: HashAlgorithm, d: Bytes, m: nat, shardSize: nat)
    requires shardSize > 0 && m > 0 && !HasBlock(h, d, Min(shardSize, m))
    ensures FailsAt(h, d, m, shardSize, 0, if h.size + Min(shardSize, m) <= |d| then FileCorrupt else EndOfStream)
  {
    FoundUnfold(h, d, Min(shardSize, m), shardSize);
    SizeUnfold(h, Min(shardSize, m), shardSize);
  }

  lemma FailsLater(h: HashAlgorithm, d: Bytes, m: nat, shardSize: nat, pos: nat, res: ReadResult)
    requires 0 < shardSize < m && HasBlock(h, d, shardSize)
    requires FailsAt(h, d[h.size + shardSize..], m - shardSize, shardSize, pos, res)
    ensures FailsAt(h, d, m, shardSize, shardSize + pos, res)
  {
    hide StartsWithStream, StreamSize, Aligned;
    var next, next' := Min(shardSize + pos + shardSize, m), Min(pos + shardSize, m - shardSize);
    assert next - shardSize == next';
    FoundUnfold(h, d, shardSize + pos, shardSize);
    FoundUnfold(h, d, next, shardSize);
    SizeUnfold(h, next, shardSize);
    AlignedUp(pos, shardSize);
  }

  /** Block reads from an opened stream give no error exactly when it starts with the stream
      of some payload. Otherwise the first error comes at the first block that is not intact:
      corruption when the block is there and its digest differs, the end of the stream when it
      is not there in full. */
  lemma {:induction false} OpenRunFails(c: ReaderConfig, rem: Bytes, offset: nat, m: nat)
    requires c.Valid() && Aligned(offset, c.shardSize)
    ensures var error := FirstError(c, ReaderState(Some(rem), offset), offset, BlockLens(m, c.shardSize));
            && (error.None? <==> StartsWithStream(c.h, rem, m, c.shardSize))
            && (error.Some? ==> FailsAt(c.h, rem, m, c.shardSize, error.value.0, error.value.1))
    decreases m
  {
    hide FirstError, FailsAt, StartsWithStream, Aligned, BlockLens;
    if m == 0 {
      NothingToRead(c, rem, offset);
    } else {
      var n: nat := Min(c.shardSize, m);
      FirstErrorStep(c, rem, offset, m);
      FoundUnfold(c.h, rem, m, c.shardSize);
      if !HasBlock(c.h, rem, n) {
        FailsHere(c.h, rem, m, c.shardSize);
      } else if n < m {
        var rest := rem[c.h.size + n..];
        AlignedUp(offset, c.shardSize);
        OpenRunFails(c, rest, offset + n, m - n);
        var error := FirstError(c, ReaderState(Some(rest), offset + n), offset + n, BlockLens(m - n, c.shardSize));
        if error.Some? {
          FailsLater(c.h, rem, m, c.shardSize, error.value.0, error.value.1);
        }
      } else {
        NothingToRead(c, rem[c.h.size + n..], offset + n);
      }
    }
  }

  lemma NothingToRead(c: ReaderConfig, rem: Bytes, offset: nat)
    requires c.shardSize > 0
    ensures FirstError(c, ReaderState(Some(rem), offset), offset, BlockLens(0, c.shardSize)) == None
    ensures StartsWithStream(c.h, rem, 0, c.shardSize)
  {
  }

  /** The same from a reader that still has to open its stream. */
  lemma ClosedRunAccepts(c: ReaderConfig, rem: Bytes, offset: nat, m: nat)
    requires c.Valid() && Aligned(offset, c.shardSize)
    requires OpenStream(c, offset, true) == Some(rem)
    ensures var run := ReadRun(c, CLOSED, offset, BlockLens(m, c.shardSize));
            && (run.Some? <==> StartsWithStream(c.h, rem, m, c.shardSize))
            && (run.Some? ==> Flatten(run.value) == Payload(c.h, rem, m, c.shardSize))
  {
    OpenRunAccepts(c, rem, offset, m);
    AlignedIsMod(offset, c.shardSize);
    if m != 0 {
      var n: nat := Min(c.shardSize, m);
      assert ReadStep(c, CLOSED, n, offset, true) == ReadStep(c, ReaderState(Some(rem), offset), n, offset, true);
    }
  }

  lemma ClosedRunFails(c: ReaderConfig, rem: Bytes, offset: nat, m: nat)
    requires c.Valid() && Aligned(offset, c.shardSize)
    requires OpenStream(c, offset, true) == Some(rem)
    ensures var error := FirstError(c, CLOSED, offset, BlockLens(m, c.shardSize));
            && (error.None? <==> StartsWithStream(c.h, rem, m, c.shardSize))
            && (error.Some? ==> FailsAt(c.h, rem, m, c.shardSize, error.value.0, error.value.1))
  {
    OpenRunFails(c, rem, offset, m);
    AlignedIsMod(offset, c.shardSize);
    hide FailsAt, StartsWithStream, Aligned;
    if m != 0 {
      var n: nat := Min(c.shardSize, m);
      assert ReadStep(c, CLOSED, n, offset, true) == ReadStep(c, ReaderState(Some(rem), offset), n, offset, true);
    }
  }

  lemma ClosedRunReturns(c: ReaderConfig, rem: Bytes, offset: nat, q: Bytes)
    requires c.Valid() && Aligned(offset, c.shardSize)
    requires OpenStream(c, offset, true) == Some(rem) && Protects(c.h, rem, q, c.shardSize)
    ensures var run := ReadRun(c, CLOSED, offset, BlockLens(|q|, c.shardSize));
            run.Some? && Flatten(run.value) == q
  {
    ClosedRunAccepts(c, rem, offset, |q|);
    ProtectedIsFound(c.h, rem, q, c.shardSize);
  }

  /** A whole number of blocks, or everything. */
  ghost predicate BlockBoundary(n: nat, p: Bytes, shardSize: nat)
    requires shardSize > 0
  {
    n <= |p| && (Aligned(n, shardSize) || n == |p|)
  }

  lemma BoundaryStream(h: HashAlgorithm, p: Bytes, n: nat, shardSize: nat)
    requires shardSize > 0 && BlockBoundary(n, p, shardSize)
    ensures Stream(h, p[..n], shardSize) <= Stream(h, p, shardSize)
    ensures n < |p| ==> Stream(h, p, shardSize) == Stream(h, p[..n], shardSize) + Stream(h, p[n..], shardSize)
  {
    assert p == p[..n] + p[n..];
    if n == |p| {
      assert p[..n] == p;
    } else {
      StreamConcat(h, p[..n], p[n..], shardSize);
    }
  }

  /** Opening at a block boundary positions the reader at exactly the blocks asked for. */
  lemma OpenAtBlock(h: HashAlgorithm, p: Bytes, shardSize: nat, start: nat, till: nat, c: ReaderConfig)
    requires h.Valid() && shardSize > 0
    requires start <= till && Aligned(start, shardSize) && BlockBoundary(till, p, shardSize)
    requires c.h == h && c.shardSize == shardSize && c.tillOffset == StreamSize(h, till, shardSize)
    requires Protects(h, c.Source(), p, shardSize)
    ensures OpenStream(c, start, true) == Some(Stream(h, p[start..till], shardSize))
  {
    var q := p[..till];
    BoundaryStream(h, p, till, shardSize);
    PrefixTransitive(Stream(h, q, shardSize), Stream(h, p, shardSize), c.Source());
    StreamHasSize(h, q, shardSize);
    StreamSlice(h, q, start, shardSize);
    assert q[start..] == p[start..till];
    OpenPrefix(c, start, Stream(h, q, shardSize));
  }

  lemma OpenPrefix(c: ReaderConfig, start: nat, s: Bytes)
    requires c.shardSize > 0 && Aligned(start, c.shardSize)
    requires s <= c.Source() && |s| == c.tillOffset && StreamSize(c.h, start, c.shardSize) <= |s|
    ensures OpenStream(c, start, true) == Some(s[StreamSize(c.h, start, c.shardSize)..])
  {
    var k := StreamSize(c.h, start, c.shardSize);
    AlignedOffset(c.h, start, c.shardSize);
    assert c.Source()[k..|s|] == s[k..];
  }

  /** Reads from a block boundary to a block boundary (or to the end) within `till`
      succeed and return exactly the payload bytes. */
  lemma ReaderReturnsPayload(h: HashAlgorithm, p: Bytes, shardSize: nat, start: nat, stop: nat, till: nat, c: ReaderConfig)
    requires h.Valid() && shardSize > 0
    requires start <= stop <= till && Aligned(start, shardSize)
    requires BlockBoundary(till, p, shardSize) && BlockBoundary(stop, p, shardSize)
    requires c == NewReader(h, shardSize, till, c.data, c.file)
    requires Protects(h, c.Source(), p, shardSize)
    ensures var run := ReadRun(c, CLOSED, start, BlockLens(stop - start, shardSize));
            run.Some? && Flatten(run.value) == p[start..stop]
  {
    hide Stream, Protects, OpenStream, ReadRun, Flatten, Aligned;
    var rem := Stream(h, p[start..till], shardSize);
    SizeFormula(h, till, shardSize);
    OpenAtBlock(h, p, shardSize, start, till, c);
    RangeProtected(h, p, shardSize, start, stop, till);
    ClosedRunReturns(c, rem, start, p[start..stop]);
  }

  lemma RangeProtected(h: HashAlgorithm, p: Bytes, shardSize: nat, start: nat, stop: nat, till: nat)
    requires shardSize > 0 && start <= stop <= till && Aligned(start, shardSize)
    requires BlockBoundary(till, p, shardSize) && BlockBoundary(stop, p, shardSize)
    ensures Protects(h, Stream(h, p[start..till], shardSize), p[start..stop], shardSize)
  {
    var q := p[start..till];
    assert q[..stop - start] == p[start..stop];
    if stop < till {
      AlignedSum(start, stop - start, shardSize);
    }
    BoundaryStream(h, q, stop - start, shardSize);
  }
}
