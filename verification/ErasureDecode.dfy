/** Decoding a byte range of an object from its data shards (cmd/erasure-decode.go,
    cmd/erasure-utils.go): the blocks that are read, joined and cut give back the range. */
module ErasureDecode {
  import opened Basics
  import opened BitrotLayout
  import opened ErasureOffsets
  import Agreement = BitrotAgreement
  import Streaming = BitrotStreaming

  // ----- Data shards

  /** A block filled up with zeros to a whole number of shards. */
  function Padded(data: Bytes, dataBlocks: nat): (p: Bytes)
    requires dataBlocks > 0
    ensures |p| == dataBlocks * CeilFrac(|data|, dataBlocks) && data <= p
  {
    CeilBounds(|data|, dataBlocks);
    data + seq(dataBlocks * CeilFrac(|data|, dataBlocks) - |data|, _ => 0)
  }

  lemma PaddedWithZeros(data: Bytes, dataBlocks: nat, i: nat)
    requires dataBlocks > 0 && |data| <= i < |Padded(data, dataBlocks)|
    ensures Padded(data, dataBlocks)[i] == 0
  {
  }

  /** `count` pieces of `n` bytes. */
  function Pieces(p: Bytes, n: nat, count: nat): (s: seq<Bytes>)
    ensures |s| == count
    decreases count
  {
    if count == 0 then [] else [p[..Min(n, |p|)]] + Pieces(p[Min(n, |p|)..], n, count - 1)
  }

  lemma {:induction false} PiecesJoin(p: Bytes, n: nat, count: nat)
    requires |p| == count * n
    ensures Flatten(Pieces(p, n, count)) == p
    ensures forall i :: 0 <= i < count ==> |Pieces(p, n, count)[i]| == n
    decreases count
  {
    if count > 0 {
      Distribute(count - 1, 1, n);
      MulMonotone(0, count - 1, n);
      PiecesJoin(p[n..], n, count - 1);
      var s := Pieces(p, n, count);
      assert s[1..] == Pieces(p[n..], n, count - 1);
      hide Pieces;
      assert forall i :: 1 <= i < count ==> s[i] == s[1..][i - 1];
    }
  }

  /** The data shards of a block. */
  function Shards(data: Bytes, dataBlocks: nat): (s: seq<Bytes>)
    requires dataBlocks > 0
    ensures |s| == dataBlocks
    ensures forall i :: 0 <= i < dataBlocks ==> |s[i]| == CeilFrac(|data|, dataBlocks)
    ensures Flatten(s) == Padded(data, dataBlocks)
  {
    CeilFracBounded(|data|, |data|, dataBlocks);
    PiecesJoin(Padded(data, dataBlocks), CeilFrac(|data|, dataBlocks), dataBlocks);
    Pieces(Padded(data, dataBlocks), CeilFrac(|data|, dataBlocks), dataBlocks)
  }

  /** The payload of the file of data shard `i`: one shard per block. */
  function ShardFile(e: Erasure, obj: Bytes, i: nat): Bytes
    requires e.Valid() && i < e.dataBlocks
    decreases |obj|
  {
    if obj == [] then []
    else
      var n := Min(e.blockSize, |obj|);
      Shards(obj[..n], e.dataBlocks)[i] + ShardFile(e, obj[n..], i)
  }

  /** Cutting at every `size` bytes. */
  function Chunks(p: Bytes, size: nat): seq<Bytes>
    requires size > 0
    decreases |p|
  {
    if p == [] then [] else [p[..Min(size, |p|)]] + Chunks(p[Min(size, |p|)..], size)
  }

  /** What block `b` of the object holds. */
  function Block(e: Erasure, obj: Bytes, b: nat): Bytes
    requires e.Valid() && 0 <= b * e.blockSize <= |obj|
  {
    obj[b * e.blockSize..Min(b * e.blockSize + e.blockSize, |obj|)]
  }

  lemma {:induction false} ChunkAt(p: Bytes, size: nat, k: nat)
    requires size > 0 && 0 <= k * size < |p|
    ensures k < |Chunks(p, size)|
    ensures Chunks(p, size)[k] == p[k * size..Min(k * size + size, |p|)]
    decreases k
  {
    if k > 0 {
      hide Chunks;
      Distribute(k - 1, 1, size);
      MulMonotone(0, k - 1, size);
      ChunkAt(p[size..], size, k - 1);
      ChunkNext(p, size);
      ShiftedSlice(p, size, (k - 1) * size);
    }
  }

  lemma ChunkNext(p: Bytes, size: nat)
    requires 0 < size <= |p|
    ensures Chunks(p, size) == [p[..size]] + Chunks(p[size..], size)
  {
  }

  lemma ShiftedSlice(p: Bytes, size: nat, a: nat)
    requires size <= |p| && a < |p| - size
    ensures p[size..][a..Min(a + size, |p| - size)] == p[a + size..Min(a + size + size, |p|)]
  {
  }

  /** The shards number `i`, block by block. */
  function BlockShards(e: Erasure, obj: Bytes, i: nat): seq<Bytes>
    requires e.Valid() && i < e.dataBlocks
    decreases |obj|
  {
    if obj == [] then []
    else
      var n := Min(e.blockSize, |obj|);
      [Shards(obj[..n], e.dataBlocks)[i]] + BlockShards(e, obj[n..], i)
  }

  /** The file has the size computed for it, and cut at the shard size it falls into the
      shards of the blocks. */
  lemma {:induction false} FileOfShards(e: Erasure, obj: Bytes, i: nat)
    requires e.Valid() && i < e.dataBlocks
    ensures e.ShardSize() > 0 && |ShardFile(e, obj, i)| == e.ShardFileSize(|obj|)
    ensures Chunks(ShardFile(e, obj, i), e.ShardSize()) == BlockShards(e, obj, i)
    decreases |obj|
  {
    ShardSizePositive(e);
    if obj != [] {
      var n := Min(e.blockSize, |obj|);
      var first, rest := Shards(obj[..n], e.dataBlocks)[i], ShardFile(e, obj[n..], i);
      FileOfShards(e, obj[n..], i);
      assert BlockShards(e, obj, i) == [first] + BlockShards(e, obj[n..], i);
      assert ShardFile(e, obj, i) == first + rest;
      FirstShardSize(e, |obj|);
      hide Shards, ShardFile, BlockShards, Erasure.ShardSize, Erasure.ShardFileSize, CeilFrac;
      ChunksFirst(first, rest, e.ShardSize());
    }
  }

  lemma ChunksFirst(first: Bytes, rest: Bytes, size: nat)
    requires 0 < |first| <= size && (|first| < size ==> rest == [])
    ensures Chunks(first + rest, size) == [first] + Chunks(rest, size)
  {
    var p := first + rest;
    assert p[..|first|] == first && p[|first|..] == rest;
  }

  lemma FirstShardSize(e: Erasure, total: nat)
    requires e.Valid() && total > 0
    ensures var n := Min(e.blockSize, total);
            var shard := CeilFrac(n, e.dataBlocks);
            && 0 < shard <= e.ShardSize()
            && (shard < e.ShardSize() ==> total - n == 0)
            && e.ShardFileSize(total) == shard + e.ShardFileSize(total - n)
            && (total - n == 0 ==> e.ShardFileSize(total - n) == 0)
  {
    CeilFracBounded(Min(e.blockSize, total), e.blockSize, e.dataBlocks);
    FileSizeParts(e, total);
    if total >= e.blockSize {
      FileSizeParts(e, total - e.blockSize);
      DivStep(total, e.blockSize);
      Distribute((total - e.blockSize) / e.blockSize, 1, e.ShardSize());
      NoTail(0, e.dataBlocks);
    } else {
      DivUnique(total, e.blockSize, 0, total);
    }
    hide CeilFrac, Erasure.ShardSize;
  }

  lemma {:induction false} BlockShardAt(e: Erasure, obj: Bytes, i: nat, b: nat)
    requires e.Valid() && i < e.dataBlocks && 0 <= b * e.blockSize < |obj|
    ensures b < |BlockShards(e, obj, i)|
    ensures BlockShards(e, obj, i)[b] == Shards(Block(e, obj, b), e.dataBlocks)[i]
    decreases b
  {
    if b == 0 {
      assert Block(e, obj, b) == obj[..Min(e.blockSize, |obj|)];
    } else {
      BlockShift(e, obj, b);
      var rest := obj[e.blockSize..];
      assert BlockShards(e, obj, i) == [Shards(obj[..e.blockSize], e.dataBlocks)[i]] + BlockShards(e, rest, i);
      hide BlockShards, Shards, Block;
      BlockShardAt(e, rest, i, b - 1);
    }
  }

  lemma BlockShift(e: Erasure, obj: Bytes, b: nat)
    requires e.Valid() && b > 0 && 0 <= b * e.blockSize < |obj|
    ensures e.blockSize <= |obj| && 0 <= (b - 1) * e.blockSize < |obj| - e.blockSize
    ensures Block(e, obj, b) == Block(e, obj[e.blockSize..], b - 1)
  {
    Distribute(b - 1, 1, e.blockSize);
    MulMonotone(0, b - 1, e.blockSize);
    ShiftedSlice(obj, e.blockSize, (b - 1) * e.blockSize);
  }

  // ----- What is read

  lemma {:induction false} ChunksJoin(p: Bytes, size: nat)
    requires size > 0
    ensures Flatten(Chunks(p, size)) == p
    ensures Agreement.HasLengths(Chunks(p, size), Streaming.BlockLens(|p|, size))
    decreases |p|
  {
    if p != [] {
      var n := Min(size, |p|);
      ChunksJoin(p[n..], size);
      var s := Chunks(p, size);
      assert s[1..] == Chunks(p[n..], size) && p == p[..n] + p[n..];
    }
  }

  /** The reads the decoder makes on an intact shard file give the shards of its range. */
  lemma ReadsAreChunks(e: Erasure, offset: nat, length: nat, obj: Bytes, i: nat, h: HashAlgorithm, c: Streaming.ReaderConfig)
    requires e.Valid() && length > 0 && offset + length <= |obj| && i < e.dataBlocks
    requires h.Valid() && e.ShardSize() > 0 && e.ShardFileOffset(offset, length, |obj|) >= 0
    requires c == Streaming.NewReader(h, e.ShardSize(), e.ShardFileOffset(offset, length, |obj|), c.data, c.file)
    requires Protects(h, c.Source(), ShardFile(e, obj, i), e.ShardSize())
    ensures var first, stop := First(e, offset), Stop(e, offset, length, |obj|);
            && 0 <= first < stop <= |ShardFile(e, obj, i)|
            && Streaming.ReadRun(c, Streaming.CLOSED, first, Streaming.BlockLens(stop - first, e.ShardSize())) ==
               Some(Chunks(ShardFile(e, obj, i)[first..stop], e.ShardSize()))
  {
    hide First, Stop, Erasure.ShardSize, Erasure.ShardFileSize, Erasure.ShardFileOffset, ShardFile, Chunks, BlockShards, Protects, Flatten,
         Streaming.ReadRun, Streaming.BlockLens, Agreement.HasLengths;
    var p, shard := ShardFile(e, obj, i), e.ShardSize();
    FileOfShards(e, obj, i);
    DecodeReadsSucceed(e, offset, length, |obj|, h, p, c);
    var first, stop := First(e, offset), Stop(e, offset, length, |obj|);
    var lens := Streaming.BlockLens(stop - first, shard);
    assert c.shardSize == shard;
    Agreement.StreamedLengths(c, Streaming.CLOSED, first, lens);
    ChunksJoin(p[first..stop], shard);
    Agreement.SameBlocks(Streaming.ReadRun(c, Streaming.CLOSED, first, lens).value, Chunks(p[first..stop], shard), lens);
  }

  /** The shards in the range of the file are those of the blocks from the first one on. */
  lemma ReadIsShard(e: Erasure, offset: nat, length: nat, obj: Bytes, i: nat, k: nat)
    requires e.Valid() && length > 0 && offset + length <= |obj| && i < e.dataBlocks
    requires offset / e.blockSize + k <= LastBlock(e, offset, length)
    ensures var b, shard, first, stop := offset / e.blockSize + k, e.ShardSize(), First(e, offset), Stop(e, offset, length, |obj|);
            && shard > 0 && 0 <= first < stop <= |ShardFile(e, obj, i)| && 0 <= b * e.blockSize < |obj|
            && k < |Chunks(ShardFile(e, obj, i)[first..stop], shard)|
            && Chunks(ShardFile(e, obj, i)[first..stop], shard)[k] == Shards(Block(e, obj, b), e.dataBlocks)[i]
  {
    hide First, Stop, LastBlock, Erasure.ShardSize, Erasure.ShardFileSize, ShardFile, Chunks, BlockShards, Shards, Block;
    var b, shard, first, stop := offset / e.blockSize + k, e.ShardSize(), First(e, offset), Stop(e, offset, length, |obj|);
    var p := ShardFile(e, obj, i);
    FileOfShards(e, obj, i);
    Quotient(offset, e.blockSize);
    ReadPlace(e, offset, length, |obj|, k);
    BlockHoldsByte(e, offset, length, |obj|, b);
    ChunkOfRange(p, shard, first, stop, k, b);
    BlockShardAt(e, obj, i, b);
  }

  lemma ReadPlace(e: Erasure, offset: nat, length: nat, total: nat, k: nat)
    requires e.Valid() && length > 0 && offset + length <= total
    requires offset / e.blockSize + k <= LastBlock(e, offset, length)
    ensures var b, shard, first, stop := offset / e.blockSize + k, e.ShardSize(), First(e, offset), Stop(e, offset, length, total);
            && shard > 0 && 0 <= first && 0 <= k * shard && first + k * shard == b * shard < stop <= e.ShardFileSize(total)
            && Min(shard, stop - b * shard) == Min(shard, e.ShardFileSize(total) - b * shard)
  {
    var start, shard := offset / e.blockSize, e.ShardSize();
    Quotient(offset, e.blockSize);
    BlockIsAligned(e, offset, length, total, start + k);
    NextRead(e, offset, length, total, start + k);
    assert Stop(e, offset, length, total) <= e.ShardFileSize(total);
    hide Stop, LastBlock, Erasure.ShardSize, Erasure.ShardFileSize, Aligned;
    Distribute(start, k, shard);
    MulMonotone(0, k, shard);
    MulMonotone(0, start, shard);
  }

  lemma ChunkOfRange(p: Bytes, size: nat, first: nat, stop: nat, k: nat, b: nat)
    requires size > 0 && 0 <= k * size && first + k * size == b * size < stop <= |p|
    requires Min(size, stop - b * size) == Min(size, |p| - b * size)
    ensures k < |Chunks(p[first..stop], size)| && b < |Chunks(p, size)|
    ensures Chunks(p[first..stop], size)[k] == Chunks(p, size)[b]
  {
    hide Chunks;
    ChunkAt(p, size, b);
    ChunkAt(p[first..stop], size, k);
    SameSlice(p, first, stop, k * size, size);
  }

  lemma SameSlice(p: Bytes, first: nat, stop: nat, a: nat, n: nat)
    requires first + a < stop <= |p|
    requires Min(n, stop - first - a) == Min(n, |p| - first - a)
    ensures p[first..stop][a..Min(a + n, stop - first)] == p[first + a..Min(first + a + n, |p|)]
  {
    var m := Min(n, stop - first - a);
    assert Min(a + n, stop - first) == a + m && Min(first + a + n, |p|) == first + a + m;
    var q := p[first..stop];
    var s, t := q[a..a + m], p[first + a..first + a + m];
    forall j | 0 <= j < m
      ensures s[j] == t[j]
    {
      assert s[j] == q[a + j] == p[first + (a + j)] == t[j];
    }
    assert s == t;
  }

  lemma BlockHoldsByte(e: Erasure, offset: nat, length: nat, total: nat, b: nat)
    requires e.Valid() && length > 0 && offset + length <= total && b <= LastBlock(e, offset, length)
    ensures 0 <= b * e.blockSize < total
  {
    var last := LastBlock(e, offset, length);
    Quotient(offset + length - 1, e.blockSize);
    MulMonotone(b, last, e.blockSize);
    MulMonotone(0, b, e.blockSize);
  }

  // ----- What is written

  /** At most `n` bytes of `d` from `off` on. */
  function Window(d: Bytes, off: nat, n: nat): Bytes {
    if off >= |d| then [] else d[off..Min(off + n, |d|)]
  }

  datatype WriteResult = Written(bytes: Bytes) | Unexpected | TooFewShards | ShortData

  lemma WindowStep(block: Bytes, rest: Bytes, off: nat, n: nat)
    ensures Window(block + rest, off, n) ==
            if off >= |block| then Window(rest, off - |block|, n)
            else if n < |block| - off then block[off..][..n]
            else block[off..] + Window(rest, 0, n - (|block| - off))
  {
    var d, k := block + rest, |block|;
    var m := Min(off + n, |d|);
    if off >= k {
      assert off < |d| ==> d[off..m] == rest[off - k..m - k];
    } else if m <= k {
      assert d[off..m] == block[off..m] == block[off..][..m - off];
      assert m == k ==> block[off..][..m - off] == block[off..];
    } else {
      assert d[off..m] == d[off..k] + d[k..m];
      assert d[off..k] == block[off..] && d[k..m] == rest[..m - k];
    }
  }

  lemma FlattenFrom(shards: seq<Bytes>, i: nat)
    requires i < |shards|
    ensures Flatten(shards[i..]) == shards[i] + Flatten(shards[i + 1..])
  {
    assert shards[i..][1..] == shards[i + 1..];
  }

  method DataBlockLen(shards: seq<Bytes>) returns (size: nat)
    ensures size == |Flatten(shards)|
  {
    size := 0;
    assert shards[0..] == shards;
    for i := 0 to |shards|
      invariant size + |Flatten(shards[i..])| == |Flatten(shards)|
    {
      FlattenFrom(shards, i);
      size := size + |shards[i]|;
    }
  }

  /** Skips `offset` bytes of the joined data shards and writes `length` bytes, or as many as
      there are; the check for enough data does not count the bytes skipped. */
  method WriteDataBlocks(all: seq<Bytes>, dataBlocks: nat, offset: int, length: int) returns (r: WriteResult)
    ensures r == if offset < 0 || length < 0 then Unexpected
                 else if |all| < dataBlocks then TooFewShards
                 else if |Flatten(all[..dataBlocks])| < length then ShortData
                 else Written(Window(Flatten(all[..dataBlocks]), offset, length))
  {
    if offset < 0 || length < 0 {
      return Unexpected;
    }
    if |all| < dataBlocks {
      return TooFewShards;
    }
    var shards := all[..dataBlocks];
    var size := DataBlockLen(shards);
    if size < length {
      return ShortData;
    }
    hide Window;
    var off: nat, write: nat, out: Bytes := offset, length, [];
    ghost var whole := Window(Flatten(shards), offset, length);
    assert shards[0..] == shards && [] + whole == whole;
    for i := 0 to |shards|
      invariant whole == out + Window(Flatten(shards[i..]), off, write)
    {
      var block := shards[i];
      FlattenFrom(shards, i);
      WindowStep(block, Flatten(shards[i + 1..]), off, write);
      if off >= |block| {
        off := off - |block|;
        continue;
      }
      block := block[off..];
      off := 0;
      if write < |block| {
        return Written(out + block[..write]);
      }
      Assoc(out, block, Window(Flatten(shards[i + 1..]), 0, write - |block|));
      out := out + block;
      write := write - |block|;
    }
    NothingLeft(shards, off, write);
    assert out + [] == out;
    return Written(out);
  }

  lemma NothingLeft(shards: seq<Bytes>, off: nat, n: nat)
    ensures Window(Flatten(shards[|shards|..]), off, n) == []
  {
  }

  // ----- The decode loop

  /** Bytes of `block` before the range. */
  function BlockOffset(e: Erasure, offset: nat, block: int): int
    requires e.Valid()
  {
    if block == offset / e.blockSize then offset % e.blockSize else 0
  }

  /** Where in the object the decoder is when it comes to `block`. */
  function Position(e: Erasure, offset: nat, length: nat, block: int): int
    requires e.Valid() && length > 0
  {
    if block == offset / e.blockSize then offset
    else if block > LastBlock(e, offset, length) then offset + length
    else block * e.blockSize
  }

  /** What the loop cuts from a block takes it from the block's position to the next one's. */
  lemma BlockRange(e: Erasure, offset: nat, length: nat, block: nat)
    requires e.Valid() && length > 0 && offset / e.blockSize <= block <= LastBlock(e, offset, length)
    ensures var skip, n := BlockOffset(e, offset, block), BlockLength(e, offset, length, block);
            && 0 <= skip && 0 < n && skip + n <= e.blockSize
            && block * e.blockSize + skip == Position(e, offset, length, block)
            && Position(e, offset, length, block) + n == Position(e, offset, length, block + 1)
  {
    var start, last, end, size := offset / e.blockSize, LastBlock(e, offset, length), (offset + length) / e.blockSize, e.blockSize;
    EndBlock(e, offset, length);
    Quotient(offset, size);
    Quotient(offset + length, size);
    Distribute(block, 1, size);
    if block == last {
      if end == last + 1 {
        assert offset + length == block * size + size;
      }
    }
    hide LastBlock;
  }

  /** Read number `k` of every shard file. */
  function Column(shardReads: seq<seq<Bytes>>, k: nat): (c: seq<Bytes>)
    requires forall i :: 0 <= i < |shardReads| ==> k < |shardReads[i]|
    ensures |c| == |shardReads| && forall i :: 0 <= i < |c| ==> c[i] == shardReads[i][k]
  {
    seq(|shardReads|, i requires 0 <= i < |shardReads| => shardReads[i][k])
  }

  /** Every data shard file was read over the range, as `ReadsAreChunks` says it is. */
  ghost predicate AllRead(e: Erasure, offset: nat, length: nat, obj: Bytes, shardReads: seq<seq<Bytes>>)
    requires e.Valid() && length > 0 && offset + length <= |obj|
  {
    && |shardReads| == e.dataBlocks
    && forall i :: 0 <= i < |shardReads| ==> WasRead(e, offset, length, obj, i, shardReads[i])
  }

  ghost predicate WasRead(e: Erasure, offset: nat, length: nat, obj: Bytes, i: nat, read: seq<Bytes>)
    requires e.Valid() && length > 0 && offset + length <= |obj| && i < e.dataBlocks
  {
    var shard, first, stop := e.ShardSize(), First(e, offset), Stop(e, offset, length, |obj|);
    shard > 0 && 0 <= first < stop <= |ShardFile(e, obj, i)| && read == Chunks(ShardFile(e, obj, i)[first..stop], shard)
  }

  /** One block: its shards joined are the block and padding. */
  lemma ColumnIsBlock(e: Erasure, offset: nat, length: nat, obj: Bytes, shardReads: seq<seq<Bytes>>, k: nat)
    requires e.Valid() && length > 0 && offset + length <= |obj| && AllRead(e, offset, length, obj, shardReads)
    requires offset / e.blockSize + k <= LastBlock(e, offset, length)
    ensures forall i :: 0 <= i < |shardReads| ==> k < |shardReads[i]|
    ensures var b := offset / e.blockSize + k;
            0 <= b * e.blockSize < |obj| && Flatten(Column(shardReads, k)) == Padded(Block(e, obj, b), e.dataBlocks)
  {
    var b := offset / e.blockSize + k;
    Quotient(offset, e.blockSize);
    BlockHoldsByte(e, offset, length, |obj|, b);
    hide First, Stop, LastBlock, Erasure.ShardSize, Erasure.ShardFileSize, ShardFile, Chunks, Shards, Block, Padded;
    var shards := Shards(Block(e, obj, b), e.dataBlocks);
    forall i | 0 <= i < |shardReads|
      ensures k < |shardReads[i]| && shardReads[i][k] == shards[i]
    {
      assert WasRead(e, offset, length, obj, i, shardReads[i]);
      ReadIsShard(e, offset, length, obj, i, k);
    }
    assert Column(shardReads, k) == shards;
  }

  /** What is cut from the block is the object between two positions. */
  lemma CutIsObject(e: Erasure, offset: nat, length: nat, obj: Bytes, b: nat)
    requires e.Valid() && length > 0 && offset + length <= |obj|
    requires offset / e.blockSize <= b <= LastBlock(e, offset, length) && 0 <= b * e.blockSize < |obj|
    ensures var skip, n := BlockOffset(e, offset, b), BlockLength(e, offset, length, b);
            var d, pos := Padded(Block(e, obj, b), e.dataBlocks), Position(e, offset, length, b);
            && 0 <= skip && 0 < n <= |d|
            && offset <= pos && pos + n == Position(e, offset, length, b + 1) <= offset + length
            && Window(d, skip, n) == obj[pos..pos + n]
  {
    BlockRange(e, offset, length, b);
    PositionsInside(e, offset, length, b);
    PositionsInside(e, offset, length, b + 1);
    var skip, n := BlockOffset(e, offset, b), BlockLength(e, offset, length, b);
    var block, size := Block(e, obj, b), e.blockSize;
    var d, pos := Padded(block, e.dataBlocks), Position(e, offset, length, b);
    hide BlockOffset, BlockLength, Position, LastBlock, Padded, CeilFrac;
    assert pos == b * size + skip;
    assert skip + n <= |block|;
    assert d[skip..skip + n] == block[skip..skip + n] == obj[pos..pos + n];
  }

  lemma PositionsInside(e: Erasure, offset: nat, length: nat, b: nat)
    requires e.Valid() && length > 0 && offset / e.blockSize <= b
    ensures offset <= Position(e, offset, length, b) <= offset + length
  {
    Quotient(offset, e.blockSize);
    if offset / e.blockSize < b <= LastBlock(e, offset, length) {
      BlockHoldsByte(e, offset, length, offset + length, b);
      Distribute(offset / e.blockSize, 1, e.blockSize);
      MulMonotone(offset / e.blockSize + 1, b, e.blockSize);
    }
  }

  datatype DecodeResult = InvalidArgument | WriteFailed | LessData | Decoded(bytes: Bytes)

  lemma Extends(obj: Bytes, a: nat, b: nat, c: nat)
    requires a <= b <= c <= |obj|
    ensures obj[a..b] + obj[b..c] == obj[a..c]
  {
  }

  /** One round: a read of every shard file, joined and cut. */
  method DecodeBlock(e: Erasure, offset: nat, length: nat, shardReads: seq<seq<Bytes>>, k: nat, skip: int, n: int, ghost obj: Bytes)
    returns (w: WriteResult)
    requires e.Valid() && length > 0 && offset + length <= |obj| && AllRead(e, offset, length, obj, shardReads)
    requires offset / e.blockSize + k <= LastBlock(e, offset, length)
    requires skip == BlockOffset(e, offset, offset / e.blockSize + k) && n == BlockLength(e, offset, length, offset / e.blockSize + k)
    ensures var b := offset / e.blockSize + k;
            var pos, pos' := Position(e, offset, length, b), Position(e, offset, length, b + 1);
            offset <= pos <= pos' <= offset + length && w == Written(obj[pos..pos'])
  {
    assert |shardReads| == e.dataBlocks;
    hide BlockOffset, BlockLength, Position, LastBlock, Window, Flatten, AllRead;
    ColumnIsRange(e, offset, length, obj, shardReads, k);
    var bufs := Column(shardReads, k);
    assert bufs[..e.dataBlocks] == bufs;
    w := WriteDataBlocks(bufs, e.dataBlocks, skip, n);
  }

  lemma ColumnIsRange(e: Erasure, offset: nat, length: nat, obj: Bytes, shardReads: seq<seq<Bytes>>, k: nat)
    requires e.Valid() && length > 0 && offset + length <= |obj| && AllRead(e, offset, length, obj, shardReads)
    requires offset / e.blockSize + k <= LastBlock(e, offset, length)
    ensures forall i :: 0 <= i < |shardReads| ==> k < |shardReads[i]|
    ensures var b := offset / e.blockSize + k;
            var skip, n := BlockOffset(e, offset, b), BlockLength(e, offset, length, b);
            var d := Flatten(Column(shardReads, k));
            var pos, pos' := Position(e, offset, length, b), Position(e, offset, length, b + 1);
            0 <= skip && 0 < n <= |d| && offset <= pos <= pos' <= offset + length && Window(d, skip, n) == obj[pos..pos']
  {
    hide BlockOffset, BlockLength, Position, LastBlock, Window, Padded, Block, Flatten, AllRead;
    Quotient(offset, e.blockSize);
    ColumnIsBlock(e, offset, length, obj, shardReads, k);
    CutIsObject(e, offset, length, obj, offset / e.blockSize + k);
  }

  /** With all data shards intact the decoder writes exactly the requested bytes. */
  method Decode(e: Erasure, offset: int, length: int, total: int, shardReads: seq<seq<Bytes>>, ghost obj: Bytes) returns (r: DecodeResult)
    requires e.Valid() && total == |obj|
    requires 0 <= offset && 0 < length && offset + length <= total ==> AllRead(e, offset, length, obj, shardReads)
    ensures r == if offset < 0 || length < 0 || offset + length > total then InvalidArgument
                 else Decoded(obj[offset..offset + length])
  {
    if offset < 0 || length < 0 {
      return InvalidArgument;
    }
    if offset + length > total {
      return InvalidArgument;
    }
    if length == 0 {
      assert obj[offset..offset + length] == [];
      return Decoded([]);
    }
    Quotient(offset, e.blockSize);
    EndBlock(e, offset, length);
    assert Position(e, offset, length, offset / e.blockSize) == offset;
    hide BlockOffset, BlockLength, Position, LastBlock, AllRead;
    var startBlock: nat, endBlock := offset / e.blockSize, (offset + length) / e.blockSize;
    ghost var last := LastBlock(e, offset, length);
    var block: nat, out: Bytes := startBlock, [];
    assert obj[offset..offset] == [];
    while block <= endBlock
      invariant startBlock <= block <= last + 1
      invariant offset <= Position(e, offset, length, block) <= |obj|
      invariant out == obj[offset..Position(e, offset, length, block)]
      decreases last + 1 - block
    {
      EmptyBlock(e, offset, length, block);
      var blockOffset, blockLength := BlockOffset(e, offset, block), BlockLength(e, offset, length, block);
      if blockLength == 0 {
        break;
      }
      var w := DecodeBlock(e, offset, length, shardReads, block - startBlock, blockOffset, blockLength, obj);
      if !w.Written? {
        return WriteFailed;
      }
      Extends(obj, offset, Position(e, offset, length, block), Position(e, offset, length, block + 1));
      out := out + w.bytes;
      block := block + 1;
    }
    assert block == last + 1;
    EndPosition(e, offset, length);
    if |out| != length {
      return LessData;
    }
    return Decoded(out);
  }

  lemma EndPosition(e: Erasure, offset: nat, length: nat)
    requires e.Valid() && length > 0
    ensures Position(e, offset, length, LastBlock(e, offset, length) + 1) == offset + length
  {
    EndBlock(e, offset, length);
  }

  /** The decoder's readers on intact data shard files are read as `Decode` needs it. */
  lemma IntactFilesSuffice(e: Erasure, offset: nat, length: nat, obj: Bytes, h: HashAlgorithm,
                           readers: seq<Streaming.ReaderConfig>, shardReads: seq<seq<Bytes>>)
    requires e.Valid() && length > 0 && offset + length <= |obj| && h.Valid()
    requires |readers| == |shardReads| == e.dataBlocks
    requires e.ShardSize() > 0 && e.ShardFileOffset(offset, length, |obj|) >= 0 && 0 <= First(e, offset) <= Stop(e, offset, length, |obj|)
    requires forall i :: 0 <= i < |readers| ==>
               var c := readers[i];
               && c == Streaming.NewReader(h, e.ShardSize(), e.ShardFileOffset(offset, length, |obj|), c.data, c.file)
               && Protects(h, c.Source(), ShardFile(e, obj, i), e.ShardSize())
               && Streaming.ReadRun(c, Streaming.CLOSED, First(e, offset),
                                    Streaming.BlockLens(Stop(e, offset, length, |obj|) - First(e, offset), e.ShardSize())) == Some(shardReads[i])
    ensures AllRead(e, offset, length, obj, shardReads)
  {
    hide First, Stop, Erasure.ShardSize, Erasure.ShardFileSize, Erasure.ShardFileOffset, ShardFile, Chunks, Protects,
         Streaming.ReadRun, Streaming.BlockLens;
    forall i | 0 <= i < |shardReads|
      ensures WasRead(e, offset, length, obj, i, shardReads[i])
    {
      ReadsAreChunks(e, offset, length, obj, i, h, readers[i]);
    }
  }
}
