/** How a byte range of an object becomes block reads of one shard file
    (cmd/erasure-coding.go, cmd/erasure-decode.go), and why those reads suit the
    streaming bitrot reader. */
module ErasureOffsets {
  import opened Basics
  import opened BitrotLayout
  import Streaming = BitrotStreaming

  datatype Erasure = Erasure(blockSize: int, dataBlocks: int) {
    predicate Valid() {
      blockSize > 0 && dataBlocks > 0
    }

    function ShardSize(): int {
      CeilFrac(blockSize, dataBlocks)
    }

    /** Payload size of each shard file of an object of `total` bytes. */
    function ShardFileSize(total: int): int
      requires Valid()
    {
      if total == 0 then 0
      else if total == -1 then -1
      else TruncDiv(total, blockSize) * ShardSize() + CeilFrac(total - TruncDiv(total, blockSize) * blockSize, dataBlocks)
    }

    /** Payload position up to which the shard files are opened. */
    function ShardFileOffset(start: int, length: int, total: int): int
      requires Valid()
    {
      var till := TruncDiv(start + length, blockSize) * ShardSize() + ShardSize();
      if till > ShardFileSize(total) then ShardFileSize(total) else till
    }
  }

  /** An unknown size stays unknown; the range opened never ends past the file. */
  lemma UnknownSize(e: Erasure, start: int, length: int, total: int)
    requires e.Valid()
    ensures e.ShardFileSize(-1) == -1 && e.ShardFileSize(0) == 0
    ensures e.ShardFileOffset(start, length, total) <= e.ShardFileSize(total)
  {
  }

  lemma {:induction false} MultipleIsAligned(k: nat, shardSize: nat)
    requires shardSize > 0
    ensures k * shardSize >= 0 && Aligned(k * shardSize, shardSize)
  {
    if k != 0 {
      Distribute(k - 1, 1, shardSize);
      MultipleIsAligned(k - 1, shardSize);
    }
  }

  lemma ShardSizePositive(e: Erasure)
    requires e.Valid()
    ensures e.ShardSize() > 0
  {
    CeilBounds(e.blockSize, e.dataBlocks);
    if e.ShardSize() <= 0 {
      MulMonotone(e.ShardSize(), 0, e.dataBlocks);
    }
  }

  lemma CeilFracBounded(n: nat, n': nat, d: nat)
    requires n <= n' && d > 0
    ensures 0 <= CeilFrac(n, d) <= CeilFrac(n', d)
    ensures n > 0 ==> CeilFrac(n, d) > 0
  {
    CeilBounds(n, d);
    CeilBounds(n', d);
    if CeilFrac(n, d) < 0 {
      MulMonotone(CeilFrac(n, d), 0, d);
      MulMonotone(CeilFrac(n, d), -1, d);
    }
    if CeilFrac(n, d) <= 0 {
      MulMonotone(CeilFrac(n, d), 0, d);
    }
    if CeilFrac(n, d) > CeilFrac(n', d) {
      MulMonotone(CeilFrac(n', d), CeilFrac(n, d) - 1, d);
    }
  }

  /** Block `b` of the object has a shard in the file exactly when it holds some byte, and
      it is a full shard unless it is the last. */
  lemma BlockInFile(e: Erasure, b: nat, total: nat)
    requires e.Valid()
    ensures var shard, size := e.ShardSize(), e.ShardFileSize(total);
            && (b * e.blockSize < total <==> b * shard < size)
            && (b < total / e.blockSize ==> b * shard + shard <= size)
            && (b == total / e.blockSize ==> size <= b * shard + shard)
  {
    ShardSizePositive(e);
    FileSizeParts(e, total);
    TailSize(e, total % e.blockSize);
    var k, r := total / e.blockSize, total % e.blockSize;
    Quotient(total, e.blockSize);
    hide CeilFrac, Erasure.ShardFileSize, Erasure.ShardSize;
    BlockArithmetic(b, k, r, e.blockSize, e.ShardSize(), CeilFrac(r, e.dataBlocks));
  }

  lemma Quotient(n: nat, d: nat)
    requires d > 0
    ensures n == n / d * d + n % d && n / d >= 0 && 0 <= n % d < d
  {
  }

  /** The shard of a last block of `r` bytes. */
  lemma TailSize(e: Erasure, r: nat)
    requires e.Valid() && r < e.blockSize
    ensures 0 <= CeilFrac(r, e.dataBlocks) <= e.ShardSize() && (r > 0 <==> CeilFrac(r, e.dataBlocks) > 0)
  {
    CeilFracBounded(r, e.blockSize, e.dataBlocks);
    NoTail(r, e.dataBlocks);
    hide CeilFrac;
  }

  lemma NoTail(n: nat, d: nat)
    requires d > 0
    ensures n == 0 ==> CeilFrac(n, d) == 0
  {
  }

  lemma FileSizeParts(e: Erasure, total: nat)
    requires e.Valid()
    ensures e.ShardFileSize(total) == total / e.blockSize * e.ShardSize() + CeilFrac(total % e.blockSize, e.dataBlocks)
  {
    if total == 0 {
      DivUnique(0, e.blockSize, 0, 0);
    } else {
      assert total - total / e.blockSize * e.blockSize == total % e.blockSize;
    }
  }

  lemma BlockArithmetic(b: nat, k: nat, r: nat, blockSize: nat, shard: nat, tail: nat)
    requires 0 < shard && 0 < blockSize && r < blockSize && tail <= shard && (r > 0 <==> tail > 0)
    ensures b * blockSize < k * blockSize + r <==> b * shard < k * shard + tail
    ensures b < k ==> b * shard + shard <= k * shard + tail
    ensures b == k ==> k * shard + tail <= b * shard + shard
  {
    if b < k {
      Distribute(b, 1, shard);
      MulMonotone(b + 1, k, shard);
      Distribute(b, 1, blockSize);
      MulMonotone(b + 1, k, blockSize);
    } else if b > k {
      Distribute(k, 1, blockSize);
      MulMonotone(k + 1, b, blockSize);
      Distribute(k, 1, shard);
      MulMonotone(k + 1, b, shard);
    }
  }

  /** Where the decoder's reads stop: after the last block that holds a requested byte, or
      at the end of the file. */
  function Stop(e: Erasure, offset: nat, length: nat, total: nat): int
    requires e.Valid() && length > 0
  {
    Min(((offset + length - 1) / e.blockSize + 1) * e.ShardSize(), e.ShardFileSize(total))
  }

  lemma DivMonotone(a: nat, b: nat, d: nat)
    requires d > 0 && a <= b
    ensures a / d <= b / d
  {
    assert a == a / d * d + a % d && b == b / d * d + b % d;
    if a / d > b / d {
      MulMonotone(b / d + 1, a / d, d);
      Distribute(b / d, 1, d);
    }
  }

  // ----- The decode loop

  /** Number of the last block that holds a requested byte. */
  function LastBlock(e: Erasure, offset: nat, length: nat): int
    requires e.Valid() && length > 0
  {
    (offset + length - 1) / e.blockSize
  }

  /** Bytes the decode loop wants from `block`. */
  function BlockLength(e: Erasure, offset: nat, length: nat, block: int): int
    requires e.Valid()
  {
    var startBlock, endBlock := offset / e.blockSize, (offset + length) / e.blockSize;
    if startBlock == endBlock then length
    else if block == startBlock then e.blockSize - offset % e.blockSize
    else if block == endBlock then (offset + length) % e.blockSize
    else e.blockSize
  }

  lemma EndBlock(e: Erasure, offset: nat, length: nat)
    requires e.Valid() && length > 0
    ensures var last, end := LastBlock(e, offset, length), (offset + length) / e.blockSize;
            && offset / e.blockSize <= last
            && end == (if (offset + length) % e.blockSize == 0 then last + 1 else last)
  {
    var n := offset + length - 1;
    DivMonotone(offset, n, e.blockSize);
    var q, r := n / e.blockSize, n % e.blockSize;
    assert n == q * e.blockSize + r;
    if r + 1 < e.blockSize {
      DivUnique(n + 1, e.blockSize, q, r + 1);
    } else {
      Distribute(q, 1, e.blockSize);
      DivUnique(n + 1, e.blockSize, q + 1, 0);
    }
  }

  /** The loop breaks on an empty block exactly when it has passed the last one. */
  lemma EmptyBlock(e: Erasure, offset: nat, length: nat, block: nat)
    requires e.Valid() && length > 0
    requires offset / e.blockSize <= block <= (offset + length) / e.blockSize
    ensures BlockLength(e, offset, length, block) == 0 <==> block > LastBlock(e, offset, length)
  {
    EndBlock(e, offset, length);
  }

  /** The read for `block` covers its shard, and the last one reaches `Stop`. */
  lemma NextRead(e: Erasure, offset: nat, length: nat, total: nat, block: nat)
    requires e.Valid() && length > 0 && offset + length <= total && block <= LastBlock(e, offset, length)
    ensures var shard, position := e.ShardSize(), block * e.ShardSize();
            var stop, n := Stop(e, offset, length, total), Min(shard, e.ShardFileSize(total) - position);
            && 0 <= position && 0 < n == Min(shard, stop - position)
            && (block < LastBlock(e, offset, length) ==> n == shard && position + n == (block + 1) * shard)
            && (block == LastBlock(e, offset, length) ==> position + n == stop)
  {
    var shard, last := e.ShardSize(), LastBlock(e, offset, length);
    ShardSizePositive(e);
    MulMonotone(0, block, shard);
    MulMonotone(block, last, e.blockSize);
    BlockInFile(e, block, total);
    DivMonotone(offset + length - 1, total, e.blockSize);
    Distribute(block, 1, shard);
    MulMonotone(block + 1, last + 1, shard);
  }

  /** Where the decoder's reads start. */
  function First(e: Erasure, offset: nat): int
    requires e.Valid()
  {
    offset / e.blockSize * e.ShardSize()
  }

  lemma FirstIsAligned(e: Erasure, offset: nat, length: nat, total: nat)
    requires e.Valid() && length > 0 && offset + length <= total
    ensures e.ShardSize() > 0 && 0 <= First(e, offset) < Stop(e, offset, length, total)
    ensures Aligned(First(e, offset), e.ShardSize())
  {
    EndBlock(e, offset, length);
    Quotient(offset, e.blockSize);
    hide LastBlock, Stop, Erasure.ShardSize, Erasure.ShardFileSize, Aligned;
    BlockIsAligned(e, offset, length, total, offset / e.blockSize);
  }

  lemma BlockIsAligned(e: Erasure, offset: nat, length: nat, total: nat, block: nat)
    requires e.Valid() && length > 0 && offset + length <= total && block <= LastBlock(e, offset, length)
    ensures e.ShardSize() > 0 && 0 <= block * e.ShardSize() < Stop(e, offset, length, total)
    ensures Aligned(block * e.ShardSize(), e.ShardSize())
  {
    ShardSizePositive(e);
    hide LastBlock, Stop, Erasure.ShardSize, Erasure.ShardFileSize, Aligned;
    NextRead(e, offset, length, total, block);
    MultipleIsAligned(block, e.ShardSize());
  }

  /** A multiple of the shard size, cut at the end of the file. */
  lemma CutIsBoundary(k: nat, shardSize: nat, p: Bytes)
    requires shardSize > 0
    ensures k * shardSize >= 0 && Streaming.BlockBoundary(Min(k * shardSize, |p|), p, shardSize)
  {
    MultipleIsAligned(k, shardSize);
    hide Aligned;
  }

  lemma StopBeforeTill(e: Erasure, offset: nat, length: nat, total: nat)
    requires e.Valid() && length > 0
    ensures e.ShardFileOffset(offset, length, total) == Min(((offset + length) / e.blockSize + 1) * e.ShardSize(), e.ShardFileSize(total))
    ensures Stop(e, offset, length, total) <= e.ShardFileOffset(offset, length, total)
  {
    ShardSizePositive(e);
    EndBlock(e, offset, length);
    hide Erasure.ShardSize, Erasure.ShardFileSize;
    var end := (offset + length) / e.blockSize;
    Distribute(end, 1, e.ShardSize());
    MulMonotone(LastBlock(e, offset, length) + 1, end + 1, e.ShardSize());
  }

  /** The opened range ends at a block boundary or with the file, and so do the reads,
      which stay inside it. */
  lemma ReadsStayInside(e: Erasure, offset: nat, length: nat, total: nat, p: Bytes)
    requires e.Valid() && length > 0 && offset + length <= total && |p| == e.ShardFileSize(total)
    ensures var shard, till, stop := e.ShardSize(), e.ShardFileOffset(offset, length, total), Stop(e, offset, length, total);
            && shard > 0
            && 0 <= First(e, offset) < stop <= till <= |p|
            && Aligned(First(e, offset), shard)
            && Streaming.BlockBoundary(stop, p, shard) && Streaming.BlockBoundary(till, p, shard)
  {
    assert Stop(e, offset, length, total) == Min((LastBlock(e, offset, length) + 1) * e.ShardSize(), |p|);
    Quotient(offset + length - 1, e.blockSize);
    Quotient(offset + length, e.blockSize);
    var last: nat := LastBlock(e, offset, length);
    hide First, Stop, LastBlock, Erasure.ShardSize, Erasure.ShardFileSize, Erasure.ShardFileOffset, Aligned, Streaming.BlockBoundary;
    FirstIsAligned(e, offset, length, total);
    StopBeforeTill(e, offset, length, total);
    CutIsBoundary(last + 1, e.ShardSize(), p);
    CutIsBoundary((offset + length) / e.blockSize + 1, e.ShardSize(), p);
  }

  /** The reads the decoder makes on one shard file, all successful. */
  lemma DecodeReadsSucceed(e: Erasure, offset: nat, length: nat, total: nat,
                           h: HashAlgorithm, p: Bytes, c: Streaming.ReaderConfig)
    requires e.Valid() && length > 0 && offset + length <= total && |p| == e.ShardFileSize(total)
    requires h.Valid() && e.ShardSize() > 0 && e.ShardFileOffset(offset, length, total) >= 0
    requires c == Streaming.NewReader(h, e.ShardSize(), e.ShardFileOffset(offset, length, total), c.data, c.file)
    requires Protects(h, c.Source(), p, e.ShardSize())
    ensures var first, stop := First(e, offset), Stop(e, offset, length, total);
            && 0 <= first < stop <= |p|
            && var run := Streaming.ReadRun(c, Streaming.CLOSED, first, Streaming.BlockLens(stop - first, e.ShardSize()));
            && run.Some? && Flatten(run.value) == p[first..stop]
  {
    hide *;
    ReadsStayInside(e, offset, length, total, p);
    Streaming.ReaderReturnsPayload(h, p, e.ShardSize(), First(e, offset),
                                   Stop(e, offset, length, total), e.ShardFileOffset(offset, length, total), c);
  }

  /** The lengths of the reads the decode loop issues, block by block; the shard length is
      cut when the file ends inside a shard. */
  method DecodeReads(e: Erasure, offset: nat, length: nat, total: nat) returns (first: nat, lens: seq<nat>)
    requires e.Valid() && length > 0 && offset + length <= total
    ensures e.ShardSize() > 0 && first == First(e, offset) <= Stop(e, offset, length, total)
    ensures lens == Streaming.BlockLens(Stop(e, offset, length, total) - first, e.ShardSize())
  {
    hide Stop, Erasure.ShardSize, Erasure.ShardFileSize, BlockLength, LastBlock;
    ShardSizePositive(e);
    var shardSize, fileSize := e.ShardSize(), e.ShardFileSize(total);
    var block: nat, endBlock: nat := offset / e.blockSize, (offset + length) / e.blockSize;
    ghost var stop, last := Stop(e, offset, length, total), LastBlock(e, offset, length);
    EndBlock(e, offset, length);
    NextRead(e, offset, length, total, block);
    first := block * shardSize;
    lens := [];
    var position: nat, shard: int := first, shardSize;
    while block <= endBlock
      invariant offset / e.blockSize <= block <= last + 1
      invariant first <= position <= stop
      invariant if block <= last then position == block * shardSize && shard == shardSize else position == stop
      invariant lens + Streaming.BlockLens(stop - position, shardSize) == Streaming.BlockLens(stop - first, shardSize)
      decreases last + 1 - block
    {
      EmptyBlock(e, offset, length, block);
      if BlockLength(e, offset, length, block) == 0 {
        break;
      }
      NextRead(e, offset, length, total, block);
      if position + shard > fileSize {
        shard := fileSize - position;
      }
      if shard != 0 {
        AppendLen(lens, stop - position, shardSize);
        lens := lens + [shard];
        position := position + shard;
      }
      block := block + 1;
      if block <= last {
        NextRead(e, offset, length, total, block);
      }
    }
    assert lens + [] == lens;
  }

  lemma AppendLen(lens: seq<nat>, m: nat, shardSize: nat)
    requires shardSize > 0 && m > 0
    ensures var n := Min(shardSize, m);
            lens + Streaming.BlockLens(m, shardSize) == lens + [n] + Streaming.BlockLens(m - n, shardSize)
  {
  }
}
