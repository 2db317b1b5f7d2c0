/** The on-disk layout of a bitrot-protected shard file: digest, block, digest, block, ...
    with every block `shardSize` bytes long except possibly the last (cmd/bitrot.go,
    cmd/bitrot-streaming.go), and the three size computations that must agree with it. */
module BitrotLayout {
  import opened Basics

  type Byte = bv8
  type Bytes = seq<Byte>

  /** A checksum is any function with a fixed, positive digest size. */
  datatype HashAlgorithm = HashAlgorithm(sum: Bytes -> Bytes, size: nat) {
    ghost predicate Valid() {
      size > 0 && forall p :: |sum(p)| == size
    }
  }

  function Flatten(chunks: seq<Bytes>): Bytes {
    if chunks == [] then [] else chunks[0] + Flatten(chunks[1..])
  }

  /** One more block in front of a successful read. */
  function Prepend(block: Bytes, rest: Option<seq<Bytes>>): (r: Option<seq<Bytes>>)
    ensures r.Some? <==> rest.Some?
    ensures r.Some? ==> Flatten(r.value) == block + Flatten(rest.value)
  {
    if rest.None? then None else
      assert ([block] + rest.value)[1..] == rest.value;
      Some([block] + rest.value)
  }

  lemma SliceOfPrefix(d: Bytes, k: nat, a: nat, b: nat)
    requires a <= b <= k <= |d|
    ensures d[..k][a..b] == d[a..b] && d[..k][a..] == d[a..][..k - a]
  {
    assert forall i :: a <= i < k ==> d[..k][i] == d[i];
  }

  // ceilFrac

  /** Integer division as the source computes it: truncated toward zero. */
  function TruncDiv(n: int, d: int): int
    requires d > 0
  {
    if n >= 0 then n / d else -((-n) / d)
  }

  function CeilFrac(numerator: int, denominator: int): int {
    if denominator == 0 then 0
    else
      var n := if denominator < 0 then -numerator else numerator;
      var d := if denominator < 0 then -denominator else denominator;
      TruncDiv(n, d) + (if n > 0 && n % d != 0 then 1 else 0)
  }

  /** For a non-zero denominator of either sign, `CeilFrac` is the exact ceiling:
      the least k with numerator / denominator <= k. */
  lemma CeilFracIsCeiling(n: int, d: int, k: int)
    requires d != 0
    ensures k == CeilFrac(n, d) <==> if d > 0 then (k - 1) * d < n <= k * d else k * d <= n < (k - 1) * d
  {
    var c := CeilFrac(n, d);
    var n', d' := if d < 0 then -n else n, if d < 0 then -d else d;
    CeilBounds(n', d');
    assert c == CeilFrac(n', d');
    assert (k - 1) * d' < n' <= k * d' <==> if d > 0 then (k - 1) * d < n <= k * d else k * d <= n < (k - 1) * d by {
      assert (k - 1) * -d == -((k - 1) * d) && k * -d == -(k * d);
    }
    if (k - 1) * d' < n' <= k * d' {
      CeilUnique(n', d', c, k);
    }
  }

  lemma CeilBounds(n: int, d: int)
    requires d > 0
    ensures (CeilFrac(n, d) - 1) * d < n <= CeilFrac(n, d) * d
  {
    var m := if n >= 0 then n else -n;
    assert m == m / d * d + m % d;
    CeilOfQuotient(n, d, m / d, m % d);
  }

  lemma CeilOfQuotient(n: int, d: int, q: int, r: int)
    requires 0 <= r < d && q * d + r == if n >= 0 then n else -n
    ensures var k := if n < 0 then -q else if r != 0 then q + 1 else q;
            (k - 1) * d < n <= k * d
  {
    if n < 0 {
      Distribute(-q, -1, d);
    } else if r != 0 {
      Distribute(q, 1, d);
    } else {
      Distribute(q, -1, d);
    }
  }

  lemma CeilUnique(n: int, d: int, j: int, k: int)
    requires d > 0
    requires (j - 1) * d < n <= j * d
    requires (k - 1) * d < n <= k * d
    ensures j == k
  {
    if j < k {
      MulMonotone(j, k - 1, d);
    } else if k < j {
      MulMonotone(k, j - 1, d);
    }
  }

  lemma CeilFracStep(n: int, d: int)
    requires 0 < d <= n
    ensures CeilFrac(n, d) == CeilFrac(n - d, d) + 1
  {
    var k := CeilFrac(n - d, d);
    CeilBounds(n - d, d);
    assert k * d == (k - 1) * d + d && (k + 1) * d == k * d + d;
    CeilFracIsCeiling(n, d, k + 1);
  }

  lemma CeilFracSmall(n: int, d: int)
    requires 0 < n <= d
    ensures CeilFrac(n, d) == 1
  {
    CeilFracIsCeiling(n, d, 1);
  }

  // Sizes

  /** Size of the file that protects `size` payload bytes. */
  function BitrotShardFileSize(h: HashAlgorithm, streaming: bool, size: int, shardSize: int): int {
    if !streaming then size else CeilFrac(size, shardSize) * h.size + size
  }

  /** Size announced when the writer creates the file; -1 stands for an unknown length. */
  function AnnouncedFileSize(h: HashAlgorithm, length: int, shardSize: int): int {
    if length == -1 then -1 else CeilFrac(length, shardSize) * h.size + length
  }

  /** A file protected as a whole is as long as its payload, and an unknown length stays
      unknown. */
  lemma OtherSizes(h: HashAlgorithm, size: int, shardSize: int)
    ensures BitrotShardFileSize(h, false, size, shardSize) == size
    ensures AnnouncedFileSize(h, -1, shardSize) == -1
  {
  }

  // The layout

  function Stream(h: HashAlgorithm, p: Bytes, shardSize: nat): Bytes
    requires shardSize > 0
    decreases |p|
  {
    if p == [] then []
    else
      var n := Min(shardSize, |p|);
      h.sum(p[..n]) + p[..n] + Stream(h, p[n..], shardSize)
  }

  /** The first block of a stream and the stream of the rest. */
  lemma StreamHead(h: HashAlgorithm, p: Bytes, shardSize: nat)
    requires h.Valid() && shardSize > 0 && p != []
    ensures var n, s := Min(shardSize, |p|), Stream(h, p, shardSize);
            && |s| >= h.size + n
            && s[..h.size] == h.sum(p[..n])
            && s[h.size..h.size + n] == p[..n]
            && s[h.size + n..] == Stream(h, p[n..], shardSize)
  {
  }

  /** Length of the stream of `m` payload bytes, block by block. */
  function StreamSize(h: HashAlgorithm, m: nat, shardSize: nat): nat
    requires shardSize > 0
    decreases m
  {
    if m == 0 then 0 else
      var n := Min(shardSize, m);
      h.size + n + StreamSize(h, m - n, shardSize)
  }

  lemma SizeUnfold(h: HashAlgorithm, m: nat, shardSize: nat)
    requires shardSize > 0 && m > 0
    ensures var n := Min(shardSize, m);
            && StreamSize(h, m, shardSize) == h.size + n + StreamSize(h, m - n, shardSize)
            && (n == m ==> StreamSize(h, m, shardSize) == h.size + n)
  {
  }

  lemma {:induction false} StreamHasSize(h: HashAlgorithm, p: Bytes, shardSize: nat)
    requires h.Valid() && shardSize > 0
    ensures |Stream(h, p, shardSize)| == StreamSize(h, |p|, shardSize)
    decreases |p|
  {
    if p != [] {
      StreamHead(h, p, shardSize);
      StreamHasSize(h, p[Min(shardSize, |p|)..], shardSize);
    }
  }

  lemma {:induction false} SizeFormula(h: HashAlgorithm, m: nat, shardSize: nat)
    requires shardSize > 0
    ensures StreamSize(h, m, shardSize) == CeilFrac(m, shardSize) * h.size + m
    decreases m
  {
    if m != 0 {
      var n := Min(shardSize, m);
      SizeFormula(h, m - n, shardSize);
      if m <= shardSize {
        CeilFracSmall(m, shardSize);
      } else {
        CeilFracStep(m, shardSize);
      }
      Distribute(CeilFrac(m - n, shardSize), 1, h.size);
    }
  }

  /** The three computations of the file size describe the same layout. */
  lemma StreamLength(h: HashAlgorithm, p: Bytes, shardSize: nat)
    requires h.Valid() && shardSize > 0
    ensures |Stream(h, p, shardSize)| == BitrotShardFileSize(h, true, |p|, shardSize)
                                      == AnnouncedFileSize(h, |p|, shardSize)
  {
    StreamHasSize(h, p, shardSize);
    SizeFormula(h, |p|, shardSize);
  }

  /** A whole number of blocks. */
  predicate Aligned(n: nat, shardSize: nat)
    requires shardSize > 0
    decreases n
  {
    n == 0 || (n >= shardSize && Aligned(n - shardSize, shardSize))
  }

  lemma {:induction false} AlignedSum(a: nat, b: nat, shardSize: nat)
    requires shardSize > 0 && Aligned(a, shardSize)
    ensures Aligned(a + b, shardSize) <==> Aligned(b, shardSize)
    decreases a
  {
    if a != 0 {
      AlignedSum(a - shardSize, b, shardSize);
    }
  }

  lemma AlignedUp(n: nat, shardSize: nat)
    requires shardSize > 0 && Aligned(n, shardSize)
    ensures Aligned(n + shardSize, shardSize)
  {
  }

  lemma {:induction false} AlignedIsMod(n: nat, shardSize: nat)
    requires shardSize > 0
    ensures Aligned(n, shardSize) <==> n % shardSize == 0
    decreases n
  {
    if n >= shardSize {
      AlignedIsMod(n - shardSize, shardSize);
      DivStep(n, shardSize);
    }
  }

  lemma DivStep(n: nat, d: nat)
    requires 0 < d <= n
    ensures n / d == (n - d) / d + 1 && n % d == (n - d) % d
  {
    var q, r := (n - d) / d, (n - d) % d;
    Distribute(q, 1, d);
    assert n == (q + 1) * d + r;
    DivUnique(n, d, q + 1, r);
  }

  lemma DivUnique(n: int, d: int, q: int, r: int)
    requires 0 <= r < d && n == q * d + r
    ensures n / d == q && n % d == r
  {
    var q', r' := n / d, n % d;
    assert n == q' * d + r';
    if q' < q {
      MulMonotone(q' + 1, q, d);
      Distribute(q', 1, d);
    } else if q < q' {
      MulMonotone(q + 1, q', d);
      Distribute(q, 1, d);
    }
  }

  /** Where block number offset / shardSize starts in the stream. */
  lemma {:induction false} AlignedOffset(h: HashAlgorithm, offset: nat, shardSize: nat)
    requires shardSize > 0 && Aligned(offset, shardSize)
    ensures offset / shardSize * h.size + offset == StreamSize(h, offset, shardSize)
    decreases offset
  {
    if offset != 0 {
      AlignedOffset(h, offset - shardSize, shardSize);
      DivStep(offset, shardSize);
      Distribute((offset - shardSize) / shardSize, 1, h.size);
    }
  }

  /** Whole blocks can be laid down one run after the other. */
  lemma {:induction false} StreamConcat(h: HashAlgorithm, a: Bytes, b: Bytes, shardSize: nat)
    requires shardSize > 0 && Aligned(|a|, shardSize)
    ensures Stream(h, a + b, shardSize) == Stream(h, a, shardSize) + Stream(h, b, shardSize)
    decreases |a|
  {
    if a == [] {
      assert a + b == b;
    } else {
      var head, rest := a[..shardSize], a[shardSize..];
      assert Stream(h, a + b, shardSize) == h.sum(head) + head + Stream(h, rest + b, shardSize) by {
        assert (a + b)[..shardSize] == head && (a + b)[shardSize..] == rest + b;
      }
      assert Stream(h, a, shardSize) == h.sum(head) + head + Stream(h, rest, shardSize);
      hide Stream;
      StreamConcat(h, rest, b, shardSize);
      Assoc(h.sum(head) + head, Stream(h, rest, shardSize), Stream(h, b, shardSize));
    }
  }

  /** A stream determines the payload it protects. */
  lemma {:induction false} StreamInjective(h: HashAlgorithm, p: Bytes, q: Bytes, shardSize: nat)
    requires h.Valid() && shardSize > 0 && |p| == |q|
    requires Stream(h, p, shardSize) == Stream(h, q, shardSize)
    ensures p == q
    decreases |p|
  {
    if p != [] {
      var n := Min(shardSize, |p|);
      StreamHead(h, p, shardSize);
      StreamHead(h, q, shardSize);
      StreamInjective(h, p[n..], q[n..], shardSize);
      assert p == p[..n] + p[n..] && q == q[..n] + q[n..];
    }
  }

  // Decoding by position

  /** `d` starts with a digest and the `n` bytes it belongs to. */
  predicate HasBlock(h: HashAlgorithm, d: Bytes, n: nat) {
    h.size + n <= |d| && h.sum(d[h.size..h.size + n]) == d[..h.size]
  }

  /** `d` starts with the stream of some payload of `m` bytes, found block by block. */
  predicate StartsWithStream(h: HashAlgorithm, d: Bytes, m: nat, shardSize: nat)
    requires shardSize > 0
    decreases m
  {
    m == 0 ||
    var n := Min(shardSize, m);
    HasBlock(h, d, n) && StartsWithStream(h, d[h.size + n..], m - n, shardSize)
  }

  /** The payload found block by block. */
  function Payload(h: HashAlgorithm, d: Bytes, m: nat, shardSize: nat): Bytes
    requires shardSize > 0 && StartsWithStream(h, d, m, shardSize)
    decreases m
  {
    if m == 0 then [] else
      var n := Min(shardSize, m);
      d[h.size..h.size + n] + Payload(h, d[h.size + n..], m - n, shardSize)
  }

  lemma FoundUnfold(h: HashAlgorithm, d: Bytes, m: nat, shardSize: nat)
    requires shardSize > 0 && m > 0
    ensures var n := Min(shardSize, m);
            && (StartsWithStream(h, d, m, shardSize) <==>
                HasBlock(h, d, n) && StartsWithStream(h, d[h.size + n..], m - n, shardSize))
            && (StartsWithStream(h, d, m, shardSize) ==>
                Payload(h, d, m, shardSize) == d[h.size..h.size + n] + Payload(h, d[h.size + n..], m - n, shardSize))
  {
  }

  ghost predicate Protects(h: HashAlgorithm, d: Bytes, p: Bytes, shardSize: nat)
    requires shardSize > 0
  {
    Stream(h, p, shardSize) <= d
  }

  lemma {:induction false} PayloadIsProtected(h: HashAlgorithm, d: Bytes, m: nat, shardSize: nat)
    requires h.Valid() && shardSize > 0 && StartsWithStream(h, d, m, shardSize)
    ensures |Payload(h, d, m, shardSize)| == m
    ensures Protects(h, d, Payload(h, d, m, shardSize), shardSize)
    decreases m
  {
    if m != 0 {
      var n := Min(shardSize, m);
      var rest := d[h.size + n..];
      PayloadIsProtected(h, rest, m - n, shardSize);
      var p := Payload(h, d, m, shardSize);
      var q := Payload(h, rest, m - n, shardSize);
      assert p[..n] == d[h.size..h.size + n] && p[n..] == q;
      assert d == d[..h.size] + d[h.size..h.size + n] + rest;
    }
  }

  lemma FoundStep(h: HashAlgorithm, block: Bytes, rest: Bytes, m: nat, shardSize: nat)
    requires h.Valid() && shardSize > 0 && m > 0 && |block| == Min(shardSize, m)
    requires StartsWithStream(h, rest, m - |block|, shardSize)
    ensures var d := h.sum(block) + block + rest;
            && StartsWithStream(h, d, m, shardSize)
            && Payload(h, d, m, shardSize) == block + Payload(h, rest, m - |block|, shardSize)
  {
    var d := h.sum(block) + block + rest;
    hide StartsWithStream, Payload;
    FoundUnfold(h, d, m, shardSize);
    assert d[..h.size] == h.sum(block) && d[h.size..h.size + |block|] == block && d[h.size + |block|..] == rest;
  }

  lemma {:induction false} StreamIsFound(h: HashAlgorithm, p: Bytes, t: Bytes, shardSize: nat)
    requires h.Valid() && shardSize > 0
    ensures StartsWithStream(h, Stream(h, p, shardSize) + t, |p|, shardSize)
    ensures Payload(h, Stream(h, p, shardSize) + t, |p|, shardSize) == p
    decreases |p|
  {
    if p != [] {
      var n := Min(shardSize, |p|);
      var block, rest := p[..n], Stream(h, p[n..], shardSize);
      assert Stream(h, p, shardSize) + t == h.sum(block) + block + (rest + t) by {
        Assoc(h.sum(block) + block, rest, t);
      }
      assert p == block + p[n..];
      hide Stream, StartsWithStream, Payload;
      StreamIsFound(h, p[n..], t, shardSize);
      FoundStep(h, block, rest + t, |p|, shardSize);
    }
  }

  lemma ProtectedIsFound(h: HashAlgorithm, d: Bytes, p: Bytes, shardSize: nat)
    requires h.Valid() && shardSize > 0 && Protects(h, d, p, shardSize)
    ensures StartsWithStream(h, d, |p|, shardSize)
    ensures Payload(h, d, |p|, shardSize) == p
  {
    var t := d[|Stream(h, p, shardSize)|..];
    assert d == Stream(h, p, shardSize) + t;
    StreamIsFound(h, p, t, shardSize);
  }

  /** What follows a block boundary in a stream is the stream of what follows it. */
  lemma StreamSlice(h: HashAlgorithm, p: Bytes, start: nat, shardSize: nat)
    requires h.Valid() && shardSize > 0 && start <= |p| && Aligned(start, shardSize)
    ensures var k := StreamSize(h, start, shardSize);
            k <= |Stream(h, p, shardSize)| && Stream(h, p, shardSize)[k..] == Stream(h, p[start..], shardSize)
  {
    var head := Stream(h, p[..start], shardSize);
    assert p == p[..start] + p[start..];
    StreamConcat(h, p[..start], p[start..], shardSize);
    StreamHasSize(h, p[..start], shardSize);
    assert (head + Stream(h, p[start..], shardSize))[|head|..] == Stream(h, p[start..], shardSize);
  }
}
