/** The decoders of a shard file agree with each other. */
module BitrotAgreement {
  import opened Basics
  import opened BitrotLayout
  import Streaming = BitrotStreaming
  import Verifier = BitrotVerify
  import Whole = BitrotWhole

  lemma {:induction false} FoundNeedsSize(h: HashAlgorithm, d: Bytes, m: nat, shardSize: nat)
    requires shardSize > 0 && StartsWithStream(h, d, m, shardSize)
    ensures StreamSize(h, m, shardSize) <= |d|
    decreases m
  {
    if m != 0 {
      var n := Min(shardSize, m);
      FoundNeedsSize(h, d[h.size + n..], m - n, shardSize);
    }
  }

  /** Only the first `StreamSize` bytes matter. */
  lemma {:induction false} FoundInPrefix(h: HashAlgorithm, d: Bytes, m: nat, shardSize: nat)
    requires shardSize > 0 && StreamSize(h, m, shardSize) <= |d|
    ensures var e := d[..StreamSize(h, m, shardSize)];
            && (StartsWithStream(h, d, m, shardSize) <==> StartsWithStream(h, e, m, shardSize))
            && (StartsWithStream(h, d, m, shardSize) ==> Payload(h, d, m, shardSize) == Payload(h, e, m, shardSize))
    decreases m
  {
    if m != 0 {
      var n, size := Min(shardSize, m), StreamSize(h, m, shardSize);
      hide StartsWithStream, Payload, StreamSize, HasBlock;
      SizeUnfold(h, m, shardSize);
      BlockInPrefix(h, d, n, size);
      var rest := d[h.size + n..];
      var rest' := rest[..size - h.size - n];
      FoundInPrefix(h, rest, m - n, shardSize);
      FoundStart(h, d, rest, m, shardSize);
      FoundStart(h, d[..size], rest', m, shardSize);
    }
  }

  lemma FoundStart(h: HashAlgorithm, d: Bytes, rest: Bytes, m: nat, shardSize: nat)
    requires shardSize > 0 && m > 0 && h.size + Min(shardSize, m) <= |d| && rest == d[h.size + Min(shardSize, m)..]
    ensures var n := Min(shardSize, m);
            && (StartsWithStream(h, d, m, shardSize) <==> HasBlock(h, d, n) && StartsWithStream(h, rest, m - n, shardSize))
            && (StartsWithStream(h, d, m, shardSize) ==>
                Payload(h, d, m, shardSize) == d[h.size..h.size + n] + Payload(h, rest, m - n, shardSize))
  {
    FoundUnfold(h, d, m, shardSize);
    hide StartsWithStream, Payload, HasBlock;
  }

  lemma BlockInPrefix(h: HashAlgorithm, d: Bytes, n: nat, size: nat)
    requires h.size + n <= size <= |d|
    ensures HasBlock(h, d[..size], n) <==> HasBlock(h, d, n)
    ensures d[..size][h.size..h.size + n] == d[h.size..h.size + n]
    ensures d[..size][h.size + n..] == d[h.size + n..][..size - h.size - n]
  {
    SliceOfPrefix(d, size, 0, h.size);
    SliceOfPrefix(d, size, h.size, h.size + n);
    SliceOfPrefix(d, size, h.size + n, size);
    assert d[..size][..h.size] == d[..size][0..h.size] && d[..h.size] == d[0..h.size];
  }

  /** Reading a file from the start to the end of its `m` payload bytes succeeds exactly
      when the file starts with the stream of some payload, and yields that payload. */
  lemma ReaderAcceptsStream(c: Streaming.ReaderConfig, m: nat)
    requires c.Valid() && c == Streaming.NewReader(c.h, c.shardSize, m, c.data, c.file)
    ensures var run := Streaming.ReadRun(c, Streaming.CLOSED, 0, Streaming.BlockLens(m, c.shardSize));
            && (run.Some? <==> StartsWithStream(c.h, c.Source(), m, c.shardSize))
            && (run.Some? ==> Flatten(run.value) == Payload(c.h, c.Source(), m, c.shardSize))
  {
    var d, size := c.Source(), StreamSize(c.h, m, c.shardSize);
    SizeFormula(c.h, m, c.shardSize);
    assert c.tillOffset == size;
    if StartsWithStream(c.h, d, m, c.shardSize) {
      FoundNeedsSize(c.h, d, m, c.shardSize);
    }
    if size <= |d| {
      Streaming.OpenPrefix(c, 0, d[..size]);
      FoundInPrefix(c.h, d, m, c.shardSize);
      assert d[..size][0..] == d[..size];
      Streaming.ClosedRunAccepts(c, d[..size], 0, m);
    } else {
      ShortFileFails(c, m);
    }
  }

  lemma ShortFileFails(c: Streaming.ReaderConfig, m: nat)
    requires c.Valid() && c.tillOffset == StreamSize(c.h, m, c.shardSize) > |c.Source()|
    ensures Streaming.ReadRun(c, Streaming.CLOSED, 0, Streaming.BlockLens(m, c.shardSize)).None?
  {
    assert m != 0;
    var rc := Streaming.OpenStream(c, 0, true);
    if rc.Some? {
      assert rc.value == c.Source();
      Streaming.ClosedRunAccepts(c, c.Source(), 0, m);
      if StartsWithStream(c.h, c.Source(), m, c.shardSize) {
        FoundNeedsSize(c.h, c.Source(), m, c.shardSize);
      }
    } else {
      assert Streaming.BlockLens(m, c.shardSize) != [];
    }
  }

  /** The first `pos` of `m` payload bytes are intact, the block after them is not. */
  ghost predicate FirstBadBlock(h: HashAlgorithm, d: Bytes, m: nat, shardSize: nat, pos: nat)
    requires shardSize > 0
  {
    && pos < m && Aligned(pos, shardSize)
    && StartsWithStream(h, d, pos, shardSize)
    && !StartsWithStream(h, d, Min(pos + shardSize, m), shardSize)
  }

  /** Reading a file of full length from the start: without error exactly when it starts with
      the stream of some payload, and else with a corruption error at the first block whose
      digest differs. */
  lemma ReaderFailsAtCorruption(c: Streaming.ReaderConfig, m: nat)
    requires c.Valid() && c == Streaming.NewReader(c.h, c.shardSize, m, c.data, c.file)
    requires StreamSize(c.h, m, c.shardSize) <= |c.Source()|
    ensures var error := Streaming.FirstError(c, Streaming.CLOSED, 0, Streaming.BlockLens(m, c.shardSize));
            && (error.None? <==> StartsWithStream(c.h, c.Source(), m, c.shardSize))
            && (error.Some? ==>
                  error.value.1 == Streaming.FileCorrupt && FirstBadBlock(c.h, c.Source(), m, c.shardSize, error.value.0))
  {
    var d, size := c.Source(), StreamSize(c.h, m, c.shardSize);
    OpensWhole(c, m);
    hide FirstBadBlock, Streaming.FirstError, Streaming.FailsAt, Streaming.BlockLens, Streaming.OpenStream, Streaming.NewReader,
         StartsWithStream, StreamSize, Aligned;
    StartIsAligned(c.shardSize);
    Streaming.ClosedRunFails(c, d[..size], 0, m);
    FoundInPrefix(c.h, d, m, c.shardSize);
    var error := Streaming.FirstError(c, Streaming.CLOSED, 0, Streaming.BlockLens(m, c.shardSize));
    if error.Some? {
      PrefixFails(c.h, d, m, c.shardSize, error.value.0, error.value.1);
    }
  }

  lemma StartIsAligned(shardSize: nat)
    requires shardSize > 0
    ensures Aligned(0, shardSize)
  {
  }

  lemma OpensWhole(c: Streaming.ReaderConfig, m: nat)
    requires c.Valid() && c == Streaming.NewReader(c.h, c.shardSize, m, c.data, c.file)
    requires StreamSize(c.h, m, c.shardSize) <= |c.Source()|
    ensures Streaming.OpenStream(c, 0, true) == Some(c.Source()[..StreamSize(c.h, m, c.shardSize)])
  {
    var s := c.Source()[..StreamSize(c.h, m, c.shardSize)];
    SizeFormula(c.h, m, c.shardSize);
    assert s[0..] == s;
    hide CeilFrac, Streaming.OpenStream;
    Streaming.OpenPrefix(c, 0, s);
  }

  /** A file on disk that is too short is refused as corrupt when it is opened. */
  lemma ShortFileIsCorrupt(c: Streaming.ReaderConfig, m: nat)
    requires c.Valid() && c == Streaming.NewReader(c.h, c.shardSize, m, c.data, c.file)
    requires c.data == [] && StreamSize(c.h, m, c.shardSize) > |c.file|
    ensures Streaming.FirstError(c, Streaming.CLOSED, 0, Streaming.BlockLens(m, c.shardSize)) == Some((0, Streaming.FileCorrupt))
  {
    SizeFormula(c.h, m, c.shardSize);
    assert c.tillOffset == StreamSize(c.h, m, c.shardSize) && m != 0;
    hide StreamSize, CeilFrac;
    assert Streaming.BlockLens(m, c.shardSize) != [];
    assert 0 / c.shardSize * c.h.size + 0 == 0 && 0 % c.shardSize == 0;
    assert Streaming.OpenStream(c, 0, true) == None;
    hide Streaming.OpenStream, Streaming.BlockLens;
  }

  lemma PrefixFails(h: HashAlgorithm, d: Bytes, m: nat, shardSize: nat, pos: nat, res: Streaming.ReadResult)
    requires shardSize > 0 && StreamSize(h, m, shardSize) <= |d|
    requires Streaming.FailsAt(h, d[..StreamSize(h, m, shardSize)], m, shardSize, pos, res)
    ensures res == Streaming.FileCorrupt && FirstBadBlock(h, d, m, shardSize, pos)
  {
    var next := Min(pos + shardSize, m);
    SizeMonotone(h, pos, m, shardSize);
    SizeMonotone(h, next, m, shardSize);
    PrefixOfPrefix(h, d, pos, m, shardSize);
    PrefixOfPrefix(h, d, next, m, shardSize);
    hide StartsWithStream, StreamSize, Aligned;
  }

  lemma PrefixOfPrefix(h: HashAlgorithm, d: Bytes, k: nat, m: nat, shardSize: nat)
    requires shardSize > 0 && StreamSize(h, k, shardSize) <= StreamSize(h, m, shardSize) <= |d|
    ensures StartsWithStream(h, d[..StreamSize(h, m, shardSize)], k, shardSize) <==> StartsWithStream(h, d, k, shardSize)
  {
    var e, size := d[..StreamSize(h, m, shardSize)], StreamSize(h, k, shardSize);
    FoundInPrefix(h, d, k, shardSize);
    FoundInPrefix(h, e, k, shardSize);
    assert e[..size] == d[..size];
    hide StartsWithStream, StreamSize;
  }

  lemma {:induction false} SizeMonotone(h: HashAlgorithm, k: nat, m: nat, shardSize: nat)
    requires shardSize > 0 && k <= m
    ensures StreamSize(h, k, shardSize) <= StreamSize(h, m, shardSize)
    decreases m
  {
    if k > 0 {
      SizeUnfold(h, k, shardSize);
      SizeUnfold(h, m, shardSize);
      if k >= shardSize {
        SizeMonotone(h, k - shardSize, m - shardSize, shardSize);
      }
      hide StreamSize;
    }
  }

  /** The scanner's check and the reader agree on every file of the right size: one accepts
      it exactly when the other reads it in full, and what is read is the one payload the
      file protects. */
  lemma VerifierAndReaderAgree(c: Streaming.ReaderConfig, wantSize: int, partSize: nat)
    requires c.Valid() && c == Streaming.NewReader(c.h, c.shardSize, partSize, c.data, c.file)
    requires wantSize == BitrotShardFileSize(c.h, true, partSize, c.shardSize)
    ensures var run := Streaming.ReadRun(c, Streaming.CLOSED, 0, Streaming.BlockLens(partSize, c.shardSize));
            && (run.Some? <==> Verifier.IsProtectedFile(c.h, c.Source(), wantSize, partSize, c.shardSize))
            && (run.Some? ==> Stream(c.h, Flatten(run.value), c.shardSize) == c.Source()[..wantSize])
  {
    var h, d, shardSize := c.h, c.Source(), c.shardSize;
    SizeFormula(h, partSize, shardSize);
    Verifier.ProtectedFileIsStream(h, d, wantSize, partSize, shardSize);
    ReaderAcceptsStream(c, partSize);
    if StartsWithStream(h, d, partSize, shardSize) {
      PayloadIsProtected(h, d, partSize, shardSize);
      StreamHasSize(h, Payload(h, d, partSize, shardSize), shardSize);
    }
  }

  lemma {:induction false} BlockLensTotal(m: nat, shardSize: nat)
    requires shardSize > 0
    ensures Whole.Total(Streaming.BlockLens(m, shardSize)) == m
    decreases m
  {
    if m != 0 {
      var n := Min(shardSize, m);
      BlockLensTotal(m - n, shardSize);
      assert Streaming.BlockLens(m, shardSize)[1..] == Streaming.BlockLens(m - n, shardSize);
    }
  }

  predicate HasLengths(blocks: seq<Bytes>, lens: seq<nat>) {
    |blocks| == |lens| && forall i :: 0 <= i < |lens| ==> |blocks[i]| == lens[i]
  }

  lemma {:induction false} StreamedLengths(c: Streaming.ReaderConfig, st: Streaming.ReaderState, offset: nat, lens: seq<nat>)
    requires c.shardSize > 0 && Streaming.ReadRun(c, st, offset, lens).Some?
    ensures HasLengths(Streaming.ReadRun(c, st, offset, lens).value, lens)
    decreases |lens|
  {
    if lens != [] {
      var (st', res) := Streaming.ReadStep(c, st, lens[0], offset, true);
      StreamedLengths(c, st', offset + lens[0], lens[1..]);
    }
  }

  lemma {:induction false} WholeLengths(c: Whole.ReaderConfig, buf: Option<Bytes>, offset: nat, lens: seq<nat>)
    requires Whole.ReadRun(c, buf, offset, lens).Some?
    ensures HasLengths(Whole.ReadRun(c, buf, offset, lens).value, lens)
    decreases |lens|
  {
    if lens != [] {
      var (buf', res) := Whole.ReadStep(c, buf, lens[0], offset, Whole.Serves);
      WholeLengths(c, buf', offset + lens[0], lens[1..]);
    }
  }

  lemma {:induction false} SameBlocks(a: seq<Bytes>, b: seq<Bytes>, lens: seq<nat>)
    requires HasLengths(a, lens) && HasLengths(b, lens) && Flatten(a) == Flatten(b)
    ensures a == b
  {
    if lens != [] {
      assert a[0] == Flatten(a)[..lens[0]] == b[0];
      assert Flatten(a[1..]) == Flatten(a)[lens[0]..] == Flatten(b[1..]);
      SameBlocks(a[1..], b[1..], lens[1..]);
    }
  }

  /** Both readers, over the same payload in their own file formats, return the same bytes
      for the same consecutive block reads. */
  lemma ReadersAgree(p: Bytes, start: nat, stop: nat, till: nat, s: Streaming.ReaderConfig, w: Whole.ReaderConfig)
    requires s.Valid() && s == Streaming.NewReader(s.h, s.shardSize, till, s.data, s.file)
    requires Protects(s.h, s.Source(), p, s.shardSize)
    requires w.file == p && w.sum == w.h.sum(p) && w.tillOffset == till
    requires start < stop <= till && Aligned(start, s.shardSize)
    requires Streaming.BlockBoundary(till, p, s.shardSize) && Streaming.BlockBoundary(stop, p, s.shardSize)
    ensures var lens := Streaming.BlockLens(stop - start, s.shardSize);
            var streamed := Streaming.ReadRun(s, Streaming.CLOSED, start, lens);
            var whole := Whole.ReadRun(w, None, start, lens);
            && streamed.Some? && whole.Some?
            && streamed.value == whole.value
            && Flatten(whole.value) == p[start..stop]
  {
    hide Streaming.ReadRun, Whole.ReadRun, Stream, Flatten, Aligned, Protects, HasLengths, Whole.Total;
    var lens := Streaming.BlockLens(stop - start, s.shardSize);
    assert lens != [];
    Streaming.ReaderReturnsPayload(s.h, p, s.shardSize, start, stop, till, s);
    BlockLensTotal(stop - start, s.shardSize);
    Whole.ReaderReturnsPayload(w, start, lens);
    StreamedLengths(s, Streaming.CLOSED, start, lens);
    WholeLengths(w, None, start, lens);
    SameBlocks(Streaming.ReadRun(s, Streaming.CLOSED, start, lens).value, Whole.ReadRun(w, None, start, lens).value, lens);
  }
}
