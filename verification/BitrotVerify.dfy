/** The scanner's check of a stored shard file (cmd/bitrot.go, bitrotVerify). */
module BitrotVerify {
  import opened Basics
  import opened BitrotLayout

  /** What the reader yields: some bytes, then end of file or an I/O error. */
  datatype Input = Input(bytes: Bytes, broken: bool)

  datatype VerifyResult = Intact | FileCorrupt | ReadFailed

  /** The first `wantSize` bytes are what the writer lays down for some payload of
      `partSize` bytes. */
  ghost predicate IsProtectedFile(h: HashAlgorithm, d: Bytes, wantSize: int, partSize: nat, shardSize: nat)
    requires shardSize > 0
  {
    && 0 <= wantSize <= |d|
    && exists p {:trigger Stream(h, p, shardSize)} :: |p| == partSize && d[..wantSize] == Stream(h, p, shardSize)
  }

  lemma ProtectedFileIsStream(h: HashAlgorithm, d: Bytes, wantSize: int, partSize: nat, shardSize: nat)
    requires h.Valid() && shardSize > 0
    ensures IsProtectedFile(h, d, wantSize, partSize, shardSize) <==>
            wantSize == StreamSize(h, partSize, shardSize) && StartsWithStream(h, d, partSize, shardSize)
  {
    if IsProtectedFile(h, d, wantSize, partSize, shardSize) {
      var p :| |p| == partSize && d[..wantSize] == Stream(h, p, shardSize);
      StreamHasSize(h, p, shardSize);
      ProtectedIsFound(h, d, p, shardSize);
    }
    if wantSize == StreamSize(h, partSize, shardSize) && StartsWithStream(h, d, partSize, shardSize) {
      var p := Payload(h, d, partSize, shardSize);
      PayloadIsProtected(h, d, partSize, shardSize);
      StreamHasSize(h, p, shardSize);
      assert d[..wantSize] == Stream(h, p, shardSize);
    }
  }

  /** State between two rounds of the loop for a well-formed request. Either the blocks
      before `pos` were all intact and `m` payload bytes remain, or a short block matched
      its digest by chance, the reader is exhausted and the next round must fail. */
  ghost predicate Progress(h: HashAlgorithm, d: Bytes, intact: bool, pos: nat, left: int, limit: int, m: nat, shardSize: nat)
    requires shardSize > 0
  {
    && pos <= |d|
    && ( || (&& left == StreamSize(h, m, shardSize)
             && (limit == shardSize || m == 0)
             && (intact <==> StartsWithStream(h, d[pos..], m, shardSize)))
         || (!intact && pos == |d| && left > 0))
  }

  /** The bytes the loop hands to the hash: at most `limit`, at most what is there. */
  function Copied(d: Bytes, pos: nat, limit: int): Bytes
    requires pos <= |d|
  {
    if limit <= 0 then [] else d[pos..Min(pos + limit, |d|)]
  }

  /** One round of the loop: a short or mismatching block refutes the file, a matching
      one leads to the next state. */
  lemma Round(h: HashAlgorithm, d: Bytes, intact: bool, pos: nat, left: int, limit: int, m: nat, shardSize: nat)
    requires h.Valid() && shardSize > 0 && left > 0 && pos + h.size <= |d|
    requires Progress(h, d, intact, pos, left, limit, m, shardSize)
    ensures m > 0
    ensures left >= h.size + |Copied(d, pos + h.size, Min(limit, left - h.size))|
    ensures var limit' := Min(limit, left - h.size);
            var block := Copied(d, pos + h.size, limit');
            && (|block| < limit' || h.sum(block) != d[pos..pos + h.size] ==> !intact)
            && (h.sum(block) == d[pos..pos + h.size] ==>
                  Progress(h, d, intact, pos + h.size + |block|, left - h.size - |block|, limit',
                           m - Min(shardSize, m), shardSize))
  {
    SizePositive(h, m, shardSize);
    SizeUnfold(h, m, shardSize);
    BlockStep(h, d, pos, m, shardSize);
    hide StreamSize, StartsWithStream;
    var n := Min(shardSize, m);
    assert Min(limit, left - h.size) == n;
    var block := Copied(d, pos + h.size, n);
    if pos + h.size + n <= |d| {
      assert block == d[pos + h.size..pos + h.size + n];
    } else {
      assert |block| == |d| - pos - h.size;
    }
    hide Copied;
  }

  lemma SizePositive(h: HashAlgorithm, m: nat, shardSize: nat)
    requires shardSize > 0 && StreamSize(h, m, shardSize) > 0
    ensures m > 0
  {
  }

  /** One round: read a digest, then at most `limit` bytes, and compare. */
  method VerifyBlock(h: HashAlgorithm, r: Input, pos: nat, left: int, limit: int)
    returns (res: VerifyResult, pos': nat, left': int, limit': int)
    requires h.Valid() && pos <= |r.bytes|
    ensures res == ReadFailed <==> |r.bytes| - pos < h.size
    ensures res != ReadFailed ==>
              && limit' == Min(limit, left - h.size)
              && var block := Copied(r.bytes, pos + h.size, limit');
              && (res == FileCorrupt <==> (|block| < limit' && r.broken) || h.sum(block) != r.bytes[pos..pos + h.size])
              && pos' == pos + h.size + |block|
              && left' == left - h.size - |block|
  {
    pos', left', limit' := pos, left, limit;
    if |r.bytes| - pos < h.size {
      return ReadFailed, pos', left', limit';
    }
    var digest := r.bytes[pos..pos + h.size];
    left' := left' - h.size;
    if left' < limit' {
      limit' := left';
    }
    var block := Copied(r.bytes, pos + h.size, limit');
    pos' := pos + h.size + |block|;
    left' := left' - |block|;
    if |block| < limit' && r.broken {
      return FileCorrupt, pos', left', limit';
    }
    res := if h.sum(block) != digest then FileCorrupt else Intact;
  }

  /** What the loop accepts for a shard size of zero or less, where every block is empty. */
  predicate EmptyBlocks(h: HashAlgorithm, d: Bytes, left: int)
    requires h.size > 0
    decreases left
  {
    left <= 0 || (HasBlock(h, d, 0) && EmptyBlocks(h, d[h.size..], left - h.size))
  }

  lemma EmptyRound(h: HashAlgorithm, d: Bytes, pos: nat, left: int)
    requires h.Valid() && left > 0 && pos <= |d|
    ensures EmptyBlocks(h, d[pos..], left) <==>
            && pos + h.size <= |d|
            && h.sum([]) == d[pos..pos + h.size]
            && EmptyBlocks(h, d[pos + h.size..], left - h.size)
  {
    if pos + h.size <= |d| {
      var e := d[pos..];
      assert e[..h.size] == d[pos..pos + h.size] && e[h.size..] == d[pos + h.size..] && e[h.size..h.size] == [];
    }
  }

  /** The block loop. For a regular request, `m` is the payload size and `intact` the truth
      about the file; the loop finds that truth, with `left` never negative between rounds. */
  method VerifyBlocks(h: HashAlgorithm, r: Input, wantSize: int, shardSize: int,
                      ghost regular: bool, ghost m: nat, ghost intact: bool)
    returns (res: VerifyResult)
    requires h.Valid()
    requires regular ==> shardSize > 0 && wantSize >= 0
    requires regular ==> Progress(h, r.bytes, intact, 0, wantSize, shardSize, m, shardSize)
    ensures regular ==> (res == Intact <==> intact)
    ensures shardSize <= 0 ==> (res == Intact <==> EmptyBlocks(h, r.bytes, wantSize))
    ensures wantSize <= 0 ==> res == Intact
    ensures regular && wantSize <= |r.bytes| && !intact ==> res == FileCorrupt
  {
    hide Progress, EmptyBlocks;
    assert r.bytes[0..] == r.bytes;
    var left, limit := wantSize, shardSize;
    var pos: nat := 0;
    ghost var k: nat := m;
    while left > 0
      invariant pos <= |r.bytes|
      invariant regular ==> left >= 0 && Progress(h, r.bytes, intact, pos, left, limit, k, shardSize)
      invariant shardSize <= 0 ==> limit <= 0
      invariant pos + left == wantSize
      invariant shardSize <= 0 ==> (EmptyBlocks(h, r.bytes[pos..], left) <==> EmptyBlocks(h, r.bytes, wantSize))
      decreases left
    {
      EmptyRound(h, r.bytes, pos, left);
      if regular {
        if |r.bytes| - pos < h.size {
          TooShort(h, r.bytes, intact, pos, left, limit, k, shardSize);
          if wantSize <= |r.bytes| {
            EnoughLeft(h, r.bytes, intact, pos, left, limit, k, shardSize);
          }
        } else {
          Round(h, r.bytes, intact, pos, left, limit, k, shardSize);
          k := k - Min(shardSize, k);
        }
      }
      res, pos, left, limit := VerifyBlock(h, r, pos, left, limit);
      if res != Intact {
        return;
      }
    }
    NoBlocks(h, r.bytes[pos..], left);
    if regular {
      AllRead(h, r.bytes, intact, pos, left, limit, k, shardSize);
    }
    return Intact;
  }

  lemma NoBlocks(h: HashAlgorithm, d: Bytes, left: int)
    requires h.size > 0 && left <= 0
    ensures EmptyBlocks(h, d, left)
  {
  }

  lemma AllRead(h: HashAlgorithm, d: Bytes, intact: bool, pos: nat, left: int, limit: int, m: nat, shardSize: nat)
    requires h.Valid() && shardSize > 0 && left <= 0
    requires Progress(h, d, intact, pos, left, limit, m, shardSize)
    ensures intact
  {
  }

  method Verify(h: HashAlgorithm, streaming: bool, r: Input, wantSize: int, partSize: int, want: Bytes, shardSize: int)
    returns (res: VerifyResult)
    requires h.Valid()
    ensures !streaming ==> (res == Intact <==> !r.broken && |r.bytes| == wantSize && h.sum(r.bytes) == want)
    ensures !streaming && res != Intact ==> res == FileCorrupt
    ensures streaming && shardSize > 0 && wantSize <= |r.bytes| && res != Intact ==> res == FileCorrupt
    ensures streaming && shardSize > 0 && partSize >= 0 ==>
              (res == Intact <==> IsProtectedFile(h, r.bytes, wantSize, partSize, shardSize))
    ensures streaming && shardSize > 0 && partSize < 0 ==>
              (res == Intact <==> wantSize == BitrotShardFileSize(h, true, partSize, shardSize))
    ensures streaming && shardSize <= 0 ==>
              (res == Intact <==> wantSize == BitrotShardFileSize(h, true, partSize, shardSize) && EmptyBlocks(h, r.bytes, wantSize))
    ensures streaming && wantSize != BitrotShardFileSize(h, true, partSize, shardSize) ==> res == FileCorrupt
  {
    if !streaming {
      if r.broken || |r.bytes| != wantSize {
        return FileCorrupt;
      }
      return if h.sum(r.bytes) == want then Intact else FileCorrupt;
    }
    ghost var regular := shardSize > 0 && partSize >= 0;
    if regular {
      SizeFormula(h, partSize, shardSize);
      ProtectedFileIsStream(h, r.bytes, wantSize, partSize, shardSize);
    }
    if shardSize > 0 && partSize < 0 {
      NegativeSize(h, partSize, shardSize);
    }
    if wantSize != BitrotShardFileSize(h, true, partSize, shardSize) {
      return FileCorrupt;
    }
    hide BitrotShardFileSize, EmptyBlocks;
    assert r.bytes[0..] == r.bytes;
    res := VerifyBlocks(h, r, wantSize, shardSize, regular, if regular then partSize else 0,
                        regular && StartsWithStream(h, r.bytes, partSize, shardSize));
  }

  lemma NegativeSize(h: HashAlgorithm, partSize: int, shardSize: int)
    requires shardSize > 0 && partSize < 0
    ensures BitrotShardFileSize(h, true, partSize, shardSize) < 0
  {
    CeilBounds(partSize, shardSize);
    if CeilFrac(partSize, shardSize) > 0 {
      MulMonotone(0, CeilFrac(partSize, shardSize) - 1, shardSize);
    }
    MulMonotone(CeilFrac(partSize, shardSize), 0, h.size);
  }

  /** As long as the whole stream is there, so is the next digest. */
  lemma EnoughLeft(h: HashAlgorithm, d: Bytes, intact: bool, pos: nat, left: int, limit: int, m: nat, shardSize: nat)
    requires h.Valid() && shardSize > 0 && left > 0 && pos + left <= |d|
    requires Progress(h, d, intact, pos, left, limit, m, shardSize)
    ensures pos + h.size <= |d|
  {
    SizePositive(h, m, shardSize);
    SizeUnfold(h, m, shardSize);
  }

  lemma TooShort(h: HashAlgorithm, d: Bytes, intact: bool, pos: nat, left: int, limit: int, m: nat, shardSize: nat)
    requires h.Valid() && shardSize > 0 && left > 0 && pos <= |d| < pos + h.size
    requires Progress(h, d, intact, pos, left, limit, m, shardSize)
    ensures !intact
  {
  }

  /** One unfolding of `StartsWithStream` at position `pos`, with slices flattened. */
  lemma BlockStep(h: HashAlgorithm, d: Bytes, pos: nat, m: nat, shardSize: nat)
    requires shardSize > 0 && m > 0 && pos + h.size <= |d|
    ensures var n := Min(shardSize, m);
            StartsWithStream(h, d[pos..], m, shardSize) <==>
            && pos + h.size + n <= |d|
            && h.sum(d[pos + h.size..pos + h.size + n]) == d[pos..pos + h.size]
            && StartsWithStream(h, d[pos + h.size + n..], m - n, shardSize)
  {
    var n := Min(shardSize, m);
    var e := d[pos..];
    assert e[..h.size] == d[pos..pos + h.size];
    if pos + h.size + n <= |d| {
      assert e[h.size..h.size + n] == d[pos + h.size..pos + h.size + n];
      assert e[h.size + n..] == d[pos + h.size + n..];
    }
  }
}
