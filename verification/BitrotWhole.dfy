/** The whole-file bitrot writer and reader (cmd/bitrot-whole.go): one digest for the
    whole file, kept elsewhere and checked when the file is first read. */
module BitrotWhole {
  import opened Basics
  import opened BitrotLayout

  // ----- Writer

  class WholeBitrotWriter {
    const h: HashAlgorithm
    var file: Bytes
    var hashed: Bytes

    constructor (h: HashAlgorithm)
      ensures this.h == h && file == [] && hashed == []
    {
      this.h := h;
      file, hashed := [], [];
    }

    /** `appended` and `fed` say whether the disk and the hash accept the bytes. */
    method Write(p: Bytes, appended: bool, fed: bool) returns (n: nat, ok: bool)
      modifies this
      ensures ok == (appended && fed) && n == (if ok then |p| else 0)
      ensures file == old(file) + (if appended then p else [])
      ensures hashed == old(hashed) + (if ok then p else [])
    {
      if !appended {
        return 0, false;
      }
      file := file + p;
      if !fed {
        return 0, false;
      }
      hashed := hashed + p;
      return |p|, true;
    }

    method Sum() returns (digest: Bytes)
      ensures digest == h.sum(hashed)
    {
      digest := h.sum(hashed);
    }
  }

  lemma FlattenStep(chunks: seq<Bytes>, i: nat, out: Bytes)
    requires i < |chunks|
    ensures out + Flatten(chunks[i..]) == out + chunks[i] + Flatten(chunks[i + 1..])
  {
    assert chunks[i..][1..] == chunks[i + 1..];
    Assoc(out, chunks[i], Flatten(chunks[i + 1..]));
  }

  /** File and digest depend on the payload only, not on how it was cut into chunks. */
  method WritePayload(h: HashAlgorithm, chunks: seq<Bytes>) returns (file: Bytes, digest: Bytes)
    ensures file == Flatten(chunks) && digest == h.sum(Flatten(chunks))
  {
    var w := new WholeBitrotWriter(h);
    assert chunks[0..] == chunks;
    for i := 0 to |chunks|
      invariant w.h == h && w.file == w.hashed
      invariant w.file + Flatten(chunks[i..]) == Flatten(chunks)
    {
      FlattenStep(chunks, i, w.file);
      var n, ok := w.Write(chunks[i], true, true);
    }
    assert chunks[|chunks|..] == [] && w.file + [] == w.file;
    file := w.file;
    digest := w.Sum();
  }

  // ----- Reader

  datatype ReadResult = Ok(bytes: Bytes) | DiskFailed | ReadFailed | FileCorrupt | LessData | Panic

  /** `sum` is the recorded digest, `tillOffset` a payload position. */
  datatype ReaderConfig = ReaderConfig(h: HashAlgorithm, file: Bytes, tillOffset: int, sum: Bytes)

  /** What the disk does when it is asked: it reads the file, or it fails for a reason of its
      own (a faulty or missing disk, the network) after filling some of the buffer. */
  datatype Disk = Serves | Fails(filled: Bytes)

  /** A buffer of `n` bytes, zero at first, into which `got` was read. */
  function Filled(got: Bytes, n: nat): Bytes {
    if n <= |got| then got[..n] else got + seq(n - |got|, _ => 0)
  }

  /** Disk read of `n` bytes at `offset` with verification of the whole file: the outcome,
      and the content of the caller's buffer whatever the outcome. */
  function ReadFile(c: ReaderConfig, offset: nat, n: nat, disk: Disk): (Bytes, ReadResult) {
    if disk.Fails? then (Filled(disk.filled, n), DiskFailed)
    else
      var got := if offset <= |c.file| then c.file[offset..Min(|c.file|, offset + n)] else [];
      if |got| < n then (Filled(got, n), ReadFailed)
      else if c.h.sum(c.file) != c.sum then (got, FileCorrupt)
      else (got, Ok(got))
  }

  /** Effect on the buffered data and result of one call; the disk is asked once. */
  function ReadStep(c: ReaderConfig, buf: Option<Bytes>, n: nat, offset: nat, disk: Disk): (Option<Bytes>, ReadResult) {
    if buf.None? && c.tillOffset < offset then (None, Panic)
    else
      var (data, res) := if buf.None? then ReadFile(c, offset, c.tillOffset - offset, disk) else (buf.value, Ok(buf.value));
      if !res.Ok? then (Some(data), res)
      else if |data| < n then (Some(data), LessData)
      else (Some(data[n..]), Ok(data[..n]))
  }

  /** What the first call gives, by the reason for it. */
  predicate IsFirstOutcome(c: ReaderConfig, n: nat, offset: nat, disk: Disk, res: ReadResult) {
    && (res == Panic <==> c.tillOffset < offset)
    && (res == DiskFailed <==> offset <= c.tillOffset && disk.Fails?)
    && (res == ReadFailed <==> offset < c.tillOffset && |c.file| < c.tillOffset && disk == Serves)
    && (res == FileCorrupt <==>
        && offset <= c.tillOffset && (offset == c.tillOffset || c.tillOffset <= |c.file|)
        && disk == Serves && c.h.sum(c.file) != c.sum)
    && (res.Ok? ==> |res.bytes| == n <= c.tillOffset - offset)
    && (res == LessData ==> n > c.tillOffset - offset)
  }

  class WholeBitrotReader {
    const c: ReaderConfig
    var buf: Option<Bytes>

    constructor (c: ReaderConfig)
      ensures this.c == c && buf == None
    {
      this.c := c;
      buf := None;
    }

    method ReadAt(n: nat, offset: nat, disk: Disk) returns (res: ReadResult)
      modifies this
      ensures (buf, res) == ReadStep(c, old(buf), n, offset, disk)
      ensures old(buf).None? ==> IsFirstOutcome(c, n, offset, disk, res)
      ensures old(buf).Some? ==> res == if |old(buf).value| < n then LessData else Ok(old(buf).value[..n])
    {
      if buf.None? {
        if c.tillOffset < offset {
          return Panic;
        }
        var (data, outcome) := ReadFile(c, offset, c.tillOffset - offset, disk);
        buf := Some(data);
        if !outcome.Ok? {
          return outcome;
        }
      }
      if |buf.value| < n {
        return LessData;
      }
      res := Ok(buf.value[..n]);
      buf := Some(buf.value[n..]);
    }
  }

  /** Consecutive reads of the given lengths from a disk that serves, up to the first error. */
  function ReadRun(c: ReaderConfig, buf: Option<Bytes>, offset: nat, lens: seq<nat>): Option<seq<Bytes>>
    decreases |lens|
  {
    if lens == [] then Some([])
    else
      var (buf', res) := ReadStep(c, buf, lens[0], offset, Serves);
      if !res.Ok? then None else Prepend(res.bytes, ReadRun(c, buf', offset + lens[0], lens[1..]))
  }

  function Total(lens: seq<nat>): nat {
    if lens == [] then 0 else lens[0] + Total(lens[1..])
  }

  /** Reads from the verified buffer return its bytes in order, and fail exactly when they
      ask for more than there is. */
  lemma {:induction false} BufferedRun(c: ReaderConfig, data: Bytes, offset: nat, lens: seq<nat>)
    ensures ReadRun(c, Some(data), offset, lens).Some? <==> Total(lens) <= |data|
    ensures Total(lens) <= |data| ==> Flatten(ReadRun(c, Some(data), offset, lens).value) == data[..Total(lens)]
    decreases |lens|
  {
    if lens != [] {
      var n := lens[0];
      if n <= |data| {
        BufferedRun(c, data[n..], offset + n, lens[1..]);
        if Total(lens) <= |data| {
          assert data[..n] + data[n..][..Total(lens[1..])] == data[..Total(lens)];
        }
      }
    }
  }

  /** On an intact file, reads starting at `start` return the payload from there, and fail
      exactly when they reach past `tillOffset`. */
  lemma ReaderReturnsPayload(c: ReaderConfig, start: nat, lens: seq<nat>)
    requires start <= c.tillOffset <= |c.file| && c.sum == c.h.sum(c.file) && lens != []
    ensures var run := ReadRun(c, None, start, lens);
            && (run.Some? <==> start + Total(lens) <= c.tillOffset)
            && (run.Some? ==> Flatten(run.value) == c.file[start..start + Total(lens)])
  {
    var data := c.file[start..c.tillOffset];
    assert ReadFile(c, start, c.tillOffset - start, Serves) == (data, Ok(data));
    assert ReadStep(c, None, lens[0], start, Serves) == ReadStep(c, Some(data), lens[0], start, Serves);
    BufferedRun(c, data, start, lens);
    if Total(lens) <= |data| {
      assert data[..Total(lens)] == c.file[start..start + Total(lens)];
    }
  }

  /** The first call returns bytes only of a file the disk served and whose digest matched. */
  lemma NoUncheckedFirstRead(c: ReaderConfig, start: nat, n: nat, disk: Disk)
    requires n > 0 && ReadStep(c, None, n, start, disk).1.Ok?
    ensures disk == Serves && c.h.sum(c.file) == c.sum && start + n <= c.tillOffset <= |c.file|
    ensures ReadStep(c, None, n, start, disk).1.bytes == c.file[start..start + n]
  {
  }

  // ----- Calls that go on after an error

  datatype Call = Call(n: nat, offset: nat, disk: Disk)

  /** The bytes of an answer are those of the file at `pos`, and the file's digest matches. */
  predicate Genuine(c: ReaderConfig, pos: nat, res: ReadResult) {
    res.Ok? ==> c.h.sum(c.file) == c.sum && IsPart(c, pos, res.bytes)
  }

  predicate IsPart(c: ReaderConfig, pos: nat, bytes: Bytes) {
    pos + |bytes| <= |c.file| && bytes == c.file[pos..pos + |bytes|]
  }

  /** All answers to a sequence of calls are genuine, errors or not, up to a panic. A filled
      buffer starts at payload position `pos`. */
  predicate AllGenuine(c: ReaderConfig, buf: Option<Bytes>, pos: nat, calls: seq<Call>)
    decreases |calls|
  {
    calls == [] ||
    var (buf', res) := ReadStep(c, buf, calls[0].n, calls[0].offset, calls[0].disk);
    var at := if buf.None? then calls[0].offset else pos;
    && Genuine(c, at, res)
    && (res.Panic? || AllGenuine(c, buf', if res.Ok? then at + |res.bytes| else at, calls[1..]))
  }

  /** How many bytes a buffer of `size` bytes gives to calls of the given lengths: a call for
      more than is left gets nothing. */
  function Taken(size: nat, calls: seq<Call>): (taken: nat)
    ensures taken <= size
    decreases |calls|
  {
    if calls == [] then 0
    else if calls[0].n <= size then calls[0].n + Taken(size - calls[0].n, calls[1..])
    else Taken(size, calls[1..])
  }

  /** No call is for so little that a buffer of `size` bytes answers it. */
  predicate NoneAnswered(size: nat, calls: seq<Call>) {
    forall i :: 0 <= i < |calls| ==> calls[i].n > size
  }

  lemma NoneNext(size: nat, calls: seq<Call>)
    requires calls != []
    ensures NoneAnswered(size, calls) <==> calls[0].n > size && NoneAnswered(size, calls[1..])
  {
    if calls[0].n > size && NoneAnswered(size, calls[1..]) {
      forall i | 0 <= i < |calls|
        ensures calls[i].n > size
      {
        if i > 0 {
          assert calls[i] == calls[1..][i - 1];
        }
      }
    }
  }

  lemma {:induction false} TakenNothing(size: nat, calls: seq<Call>)
    ensures NoneAnswered(size, calls) ==> Taken(size, calls) == 0
  {
    if calls != [] {
      NoneNext(size, calls);
      TakenNothing(size, calls[1..]);
    }
  }

  lemma PartOfParts(c: ReaderConfig, pos: nat, data: Bytes, n: nat, m: nat)
    requires n + m <= |data|
    ensures IsPart(c, pos, data[..n + m]) <==> IsPart(c, pos, data[..n]) && IsPart(c, pos + n, data[n..][..m])
  {
    assert data[..n + m] == data[..n] + data[n..][..m];
    if pos + n + m <= |c.file| {
      assert c.file[pos..pos + n + m] == c.file[pos..pos + n] + c.file[pos + n..pos + n + m];
    }
  }

  /** Calls on a filled buffer, whatever filled it, are answered genuinely exactly when none
      is answered, or the digest matches and what they get is what the file holds there. */
  lemma {:induction false} BufferGenuine(c: ReaderConfig, pos: nat, data: Bytes, calls: seq<Call>)
    ensures AllGenuine(c, Some(data), pos, calls) <==>
            || NoneAnswered(|data|, calls)
            || (c.h.sum(c.file) == c.sum && IsPart(c, pos, data[..Taken(|data|, calls)]))
    decreases |calls|
  {
    if calls != [] {
      var n, rest := calls[0].n, calls[1..];
      assert Taken(|data|, calls) == if n <= |data| then n + Taken(|data| - n, rest) else Taken(|data|, rest);
      hide AllGenuine, IsPart, NoneAnswered, Taken;
      NoneNext(|data|, calls);
      AnswerStep(c, pos, data, calls);
      if n <= |data| {
        var m := Taken(|data| - n, rest);
        BufferGenuine(c, pos + n, data[n..], rest);
        TakenNothing(|data| - n, rest);
        PartOfParts(c, pos, data, n, m);
        NothingIsPart(c, pos, data[..n], data[n..][..m]);
      } else {
        BufferGenuine(c, pos, data, rest);
      }
    } else {
      assert AllGenuine(c, Some(data), pos, calls) && NoneAnswered(|data|, calls);
    }
  }

  lemma NothingIsPart(c: ReaderConfig, pos: nat, bytes: Bytes, nothing: Bytes)
    ensures nothing == [] && IsPart(c, pos, bytes) ==> IsPart(c, pos + |bytes|, nothing)
  {
  }

  lemma AnswerStep(c: ReaderConfig, pos: nat, data: Bytes, calls: seq<Call>)
    requires calls != []
    ensures AllGenuine(c, Some(data), pos, calls) <==>
            if calls[0].n <= |data| then
              && c.h.sum(c.file) == c.sum && IsPart(c, pos, data[..calls[0].n])
              && AllGenuine(c, Some(data[calls[0].n..]), pos + calls[0].n, calls[1..])
            else AllGenuine(c, Some(data), pos, calls[1..])
  {
    hide IsPart, ReadFile;
  }

  /** The buffer the first call leaves. */
  function Left(c: ReaderConfig, call: Call): Bytes
    requires call.offset <= c.tillOffset
  {
    ReadFile(c, call.offset, c.tillOffset - call.offset, call.disk).0
  }

  /** The first call fails: the disk does, or the file ends early, or its digest differs. */
  predicate FirstFails(c: ReaderConfig, call: Call) {
    || call.disk.Fails?
    || c.h.sum(c.file) != c.sum
    || (call.offset < c.tillOffset && |c.file| < c.tillOffset)
  }

  lemma FirstOutcome(c: ReaderConfig, call: Call)
    requires call.offset <= c.tillOffset
    ensures |Left(c, call)| == c.tillOffset - call.offset
    ensures var (buf, res) := ReadStep(c, None, call.n, call.offset, call.disk);
            if FirstFails(c, call) then !res.Ok? && !res.Panic? && buf == Some(Left(c, call))
            else (buf, res) == ReadStep(c, Some(Left(c, call)), call.n, call.offset, call.disk)
  {
  }

  /** Whatever is called, however the disk answers and however often calls go on after an
      error, every answer is genuine exactly when no call is answered from the buffer, or the
      digest matches and what is answered is what the file holds there. The buffer answers
      every call, but not the first one if that fails. */
  lemma CallsGenuineExactly(c: ReaderConfig, calls: seq<Call>)
    requires calls != []
    ensures var first := calls[0];
            var answered := if FirstFails(c, first) then calls[1..] else calls;
            AllGenuine(c, None, 0, calls) <==>
            || c.tillOffset < first.offset
            || NoneAnswered(c.tillOffset - first.offset, answered)
            || (c.h.sum(c.file) == c.sum &&
                IsPart(c, first.offset, Left(c, first)[..Taken(c.tillOffset - first.offset, answered)]))
  {
    var first := calls[0];
    FirstStep(c, calls);
    if first.offset <= c.tillOffset {
      FirstOutcome(c, first);
      hide *;
      BufferGenuine(c, first.offset, Left(c, first), if FirstFails(c, first) then calls[1..] else calls);
    }
  }

  lemma FirstStep(c: ReaderConfig, calls: seq<Call>)
    requires calls != []
    ensures var first := calls[0];
            AllGenuine(c, None, 0, calls) <==>
            || c.tillOffset < first.offset
            || AllGenuine(c, Some(Left(c, first)), first.offset, if FirstFails(c, first) then calls[1..] else calls)
  {
    if calls[0].offset <= c.tillOffset {
      FirstOutcome(c, calls[0]);
      hide ReadStep, Left, FirstFails;
    }
  }

  predicate Intact(c: ReaderConfig) {
    c.tillOffset <= |c.file| && c.h.sum(c.file) == c.sum
  }

  /** When the disk serves the first call, only the file matters: every answer is genuine
      exactly when the file is intact, or none is answered, or (a file that matches but ends
      early) what is answered lies inside the file. */
  lemma ServedGenuineExactly(c: ReaderConfig, calls: seq<Call>)
    requires calls != [] && calls[0].disk == Serves && calls[0].offset <= c.tillOffset
    ensures var start := calls[0].offset;
            var answered := if FirstFails(c, calls[0]) then calls[1..] else calls;
            AllGenuine(c, None, 0, calls) <==>
            || Intact(c)
            || NoneAnswered(c.tillOffset - start, answered)
            || (c.h.sum(c.file) == c.sum && start + Taken(c.tillOffset - start, answered) <= |c.file|)
  {
    CallsGenuineExactly(c, calls);
    LeftIsPart(c, calls[0], Taken(c.tillOffset - calls[0].offset, if FirstFails(c, calls[0]) then calls[1..] else calls));
    hide AllGenuine, IsPart, Left, NoneAnswered;
  }

  lemma LeftIsPart(c: ReaderConfig, call: Call, n: nat)
    requires call.disk == Serves && call.offset <= c.tillOffset && n <= c.tillOffset - call.offset
    ensures |Left(c, call)| == c.tillOffset - call.offset
    ensures IsPart(c, call.offset, Left(c, call)[..n]) <==> call.offset + n <= |c.file|
  {
    var left, start := Left(c, call), call.offset;
    LeftStarts(c, call, n);
    assert |left[..n]| == n;
    if start + n <= |c.file| {
      assert Filled(c.file[start..], n) == c.file[start..][..n] == c.file[start..start + n];
    }
    hide Left, ReadFile, Filled;
  }

  /** A retry after a failed first call is answered exactly when it asks for no more than the
      buffer holds: with bytes that failed verification, or with whatever a failed disk read
      left, and zeros after them. */
  lemma RetryIsAnswered(c: ReaderConfig, first: Call, n: nat)
    requires first.offset <= c.tillOffset && FirstFails(c, first)
    ensures var (buf, res) := ReadStep(c, None, first.n, first.offset, first.disk);
            var second := ReadStep(c, buf, n, first.offset, first.disk).1;
            var got := if first.disk.Fails? then first.disk.filled else if first.offset <= |c.file| then c.file[first.offset..] else [];
            && !res.Ok?
            && (second.Ok? <==> n <= c.tillOffset - first.offset)
            && (second.Ok? ==> second.bytes == Filled(got, n))
  {
    FirstOutcome(c, first);
    if n <= c.tillOffset - first.offset {
      LeftStarts(c, first, n);
    }
    hide Left, Filled, ReadFile;
  }

  lemma LeftStarts(c: ReaderConfig, call: Call, n: nat)
    requires call.offset <= c.tillOffset && n <= c.tillOffset - call.offset
    ensures |Left(c, call)| == c.tillOffset - call.offset
    ensures var got := if call.disk.Fails? then call.disk.filled else if call.offset <= |c.file| then c.file[call.offset..] else [];
            Left(c, call)[..n] == Filled(got, n)
  {
  }

  /** An instance: an intact file, a disk that fails once without reading anything, and a
      caller that tries again gets zeros. */
  lemma RetryReturnsZeros(h: HashAlgorithm, b: Byte)
    requires b != 0
    ensures var c, calls := ReaderConfig(h, [b], 1, h.sum([b])), [Call(1, 0, Fails([])), Call(1, 0, Serves)];
            && Intact(c)
            && ReadStep(c, ReadStep(c, None, 1, 0, Fails([])).0, 1, 0, Serves).1 == Ok([0])
            && !AllGenuine(c, None, 0, calls)
  {
    var c, calls := ReaderConfig(h, [b], 1, h.sum([b])), [Call(1, 0, Fails([])), Call(1, 0, Serves)];
    RetryIsAnswered(c, calls[0], 1);
    assert Filled([], 1) == [0];
    assert calls[1..] == [Call(1, 0, Serves)];
    FirstStep(c, calls);
    var zero: Bytes := [0];
    AnswerStep(c, 0, zero, calls[1..]);
    assert zero[..1][0] != c.file[0..1][0];
  }
}
