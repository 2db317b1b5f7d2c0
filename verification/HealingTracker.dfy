/** Progress of healing a fresh disk (cmd/background-newdisks-heal-ops.go): the queue of
    buckets edited in place, and the counters that a restart rolls back. */
module HealingTracker {
  import opened Basics

  // ----- Counters

  const UINT64 := 0x1_0000_0000_0000_0000

  /** Four unsigned 64-bit counters; addition wraps around. */
  datatype Counters = Counters(itemsHealed: nat, itemsFailed: nat, bytesDone: nat, bytesFailed: nat) {
    function Plus(c: Counters): Counters {
      Counters((itemsHealed + c.itemsHealed) % UINT64, (itemsFailed + c.itemsFailed) % UINT64,
               (bytesDone + c.bytesDone) % UINT64, (bytesFailed + c.bytesFailed) % UINT64)
    }
  }

  const ZERO := Counters(0, 0, 0, 0)

  // ----- Lists

  predicate NoDuplicates<Name(==)>(s: seq<Name>) {
    forall i, j :: 0 <= i < j < |s| ==> s[i] != s[j]
  }

  /** `q` without `b`, in order. */
  function Without<Name(==)>(q: seq<Name>, b: Name): seq<Name> {
    if q == [] then []
    else if q[0] == b then Without(q[1..], b)
    else [q[0]] + Without(q[1..], b)
  }

  /** What the in-place deletion leaves: after each deletion the element that slides into
      the gap is not looked at. */
  function WithoutSkipping<Name(==)>(q: seq<Name>, b: Name): seq<Name> {
    if q == [] then []
    else if q[0] != b then [q[0]] + WithoutSkipping(q[1..], b)
    else if |q| == 1 then []
    else [q[1]] + WithoutSkipping(q[2..], b)
  }

  predicate AdjacentPair<Name(==)>(q: seq<Name>, b: Name) {
    exists i :: 0 <= i < |q| - 1 && q[i] == q[i + 1] == b
  }

  /** The last element is `b` and it is not the first `b`. */
  predicate LateLast<Name(==)>(q: seq<Name>, b: Name) {
    q != [] && q[|q| - 1] == b && b in q[..|q| - 1]
  }

  lemma {:induction false} WithoutMembers<Name>(q: seq<Name>, b: Name)
    ensures forall x :: x in Without(q, b) <==> x in q && x != b
  {
    if q != [] {
      WithoutMembers(q[1..], b);
    }
  }

  lemma {:induction false} WithoutAbsent<Name>(q: seq<Name>, b: Name)
    requires b !in q
    ensures Without(q, b) == q
  {
    if q != [] {
      WithoutAbsent(q[1..], b);
    }
  }

  lemma {:induction false} WithoutKeepsDistinct<Name>(q: seq<Name>, b: Name)
    requires NoDuplicates(q)
    ensures NoDuplicates(Without(q, b))
  {
    if q != [] {
      WithoutKeepsDistinct(q[1..], b);
      WithoutMembers(q[1..], b);
      assert q[0] !in q[1..];
    }
  }

  /** Skipping does no harm exactly when no two neighbours are both `b`. */
  lemma {:induction false} SkippingExact<Name>(q: seq<Name>, b: Name)
    ensures WithoutSkipping(q, b) == Without(q, b) <==> !AdjacentPair(q, b)
    decreases |q|
  {
    if q == [] {
    } else if q[0] != b {
      SkippingExact(q[1..], b);
      PairInTail(q, b);
      assert WithoutSkipping(q, b)[1..] == WithoutSkipping(q[1..], b) && Without(q, b)[1..] == Without(q[1..], b);
    } else if |q| > 1 {
      if q[1] == b {
        assert AdjacentPair(q, b);
        WithoutMembers(q, b);
        assert WithoutSkipping(q, b)[0] == b && b in WithoutSkipping(q, b);
      } else {
        SkippingExact(q[2..], b);
        PairInTail(q, b);
        PairInTail(q[1..], b);
        assert q[1..][1..] == q[2..];
        assert WithoutSkipping(q, b)[1..] == WithoutSkipping(q[2..], b) && Without(q, b)[1..] == Without(q[2..], b);
      }
    }
  }

  lemma PairInTail<Name>(q: seq<Name>, b: Name)
    requires |q| > 0 && !(|q| > 1 && q[0] == q[1] == b)
    ensures AdjacentPair(q, b) <==> AdjacentPair(q[1..], b)
  {
    if AdjacentPair(q, b) {
      var i :| 0 <= i < |q| - 1 && q[i] == q[i + 1] == b;
      assert q[1..][i - 1] == q[1..][i] == b;
    }
    if AdjacentPair(q[1..], b) {
      var i :| 0 <= i < |q[1..]| - 1 && q[1..][i] == q[1..][i + 1] == b;
      assert q[i + 1] == q[i + 2] == b;
    }
  }

  lemma DistinctIsHarmless<Name>(q: seq<Name>, b: Name)
    requires NoDuplicates(q)
    ensures !AdjacentPair(q, b) && !LateLast(q, b)
    ensures WithoutSkipping(q, b) == Without(q, b)
  {
    SkippingExact(q, b);
  }

  /** Finishing `b` succeeds and removes it from the queue `q` exactly when `q` has no two
      neighbouring `b` and does not end in a second `b`. */
  lemma DeletionExact<Name>(q: seq<Name>, b: Name)
    ensures !LateLast(q, b) && WithoutSkipping(q, b) == Without(q, b) <==> !LateLast(q, b) && !AdjacentPair(q, b)
    ensures !LateLast(q, b) && WithoutSkipping(q, b) == Without(q, b) ==> b !in WithoutSkipping(q, b)
  {
    SkippingExact(q, b);
    WithoutMembers(q, b);
  }

  /** A repeated bucket may be left behind, or make the deletion panic. */
  lemma RepeatedBucket<Name>(a: Name, x: Name)
    requires a != x
    ensures WithoutSkipping([a, a, x], a) == [a, x] && !LateLast([a, a, x], a)
    ensures LateLast([a, x, a], a)
  {
    assert [a, x, a][..2] == [a, x];
    assert [a, a, x][2..] == [x] && [x][1..] == [];
    assert WithoutSkipping([x], a) == [x];
  }

  /** One step of the sweep over the queue, as a step on what is left of it. */
  lemma SweepStep<Name>(q: seq<Name>, p: nat, b: Name)
    requires p < |q|
    ensures q[p] != b ==> WithoutSkipping(q[p..], b) == [q[p]] + WithoutSkipping(q[p + 1..], b)
    ensures q[p] == b && p + 1 < |q| ==> WithoutSkipping(q[p..], b) == [q[p + 1]] + WithoutSkipping(q[p + 2..], b)
    ensures q[p] == b && p + 1 == |q| ==> WithoutSkipping(q[p..], b) == []
  {
    assert q[p..][1..] == q[p + 1..];
    if p + 1 < |q| {
      assert q[p..][2..] == q[p + 2..];
    }
  }

  // ----- The sweep over the queue

  /** `a'` is the backing array `a` after deleting index `i` of a slice of length `len`. */
  ghost predicate ShiftedLeft<Name>(a: seq<Name>, a': seq<Name>, i: nat, len: nat) {
    && i < len <= |a| == |a'|
    && (forall j :: 0 <= j < i ==> a'[j] == a[j])
    && (forall j :: i <= j < len - 1 ==> a'[j] == a[j + 1])
    && (forall j :: len - 1 <= j < |a| ==> a'[j] == a[j])
  }

  /** The first `m` elements of `a` are what the deletion leaves of the first `p` of `q`. */
  ghost predicate Passed<Name>(q: seq<Name>, a: seq<Name>, m: nat, p: nat, b: Name) {
    && m <= |a| && p <= |q|
    && a[..m] + WithoutSkipping(q[p..], b) == WithoutSkipping(q, b)
  }

  lemma PassOne<Name>(q: seq<Name>, a: seq<Name>, a': seq<Name>, m: nat, p: nat, p': nat, x: Name, b: Name)
    requires Passed(q, a, m, p, b) && p' <= |q| && m < |a'|
    requires WithoutSkipping(q[p..], b) == [x] + WithoutSkipping(q[p'..], b)
    requires a'[m] == x && forall j :: 0 <= j < m ==> a'[j] == a[j]
    ensures Passed(q, a', m + 1, p', b)
  {
    hide WithoutSkipping;
    assert a'[..m + 1] == a[..m] + [x];
    assert a[..m] + ([x] + WithoutSkipping(q[p'..], b)) == a[..m] + [x] + WithoutSkipping(q[p'..], b);
  }

  /** After `i` rounds and `k` deletions: the backing array `a` still holds what is left to
      look at, shifted by `k`, then stale copies of the last element. */
  ghost predicate Swept<Name>(q: seq<Name>, a: seq<Name>, i: nat, k: nat, b: Name) {
    var n := |q|;
    && |a| == n && k <= i <= n
    && (forall j :: i <= j < n - k ==> a[j] == q[j + k])
    && (forall j :: n - k <= j < n ==> a[j] == q[n - 1])
    && (k > 0 <==> b in q[..i])
    && Passed(q, a, Min(i, n - k), Min(i + k, n), b)
    && (i == n ==> !LateLast(q, b))
  }

  lemma SweepStarts<Name>(q: seq<Name>, b: Name)
    ensures Swept(q, q, 0, 0, b)
  {
    assert q[0..] == q && q[..0] == [];
    assert [] + WithoutSkipping(q, b) == WithoutSkipping(q, b);
  }

  lemma SweepKeeps<Name>(q: seq<Name>, a: seq<Name>, i: nat, k: nat, b: Name)
    requires Swept(q, a, i, k, b) && i < |q| && a[i] != b
    ensures Swept(q, a, i + 1, k, b)
  {
    hide Passed, WithoutSkipping;
    var n := |q|;
    assert q[..i + 1] == q[..i] + [q[i]];
    if i < n - k {
      SweepStep(q, i + k, b);
      PassOne(q, a, a, i, i + k, i + k + 1, q[i + k], b);
    }
    if i + 1 == n {
      assert q[..n - 1] == q[..i];
    }
  }

  lemma SweepDeletes<Name>(q: seq<Name>, a: seq<Name>, a': seq<Name>, i: nat, k: nat, b: Name)
    requires Swept(q, a, i, k, b) && ShiftedLeft(a, a', i, |q| - k) && a[i] == b
    ensures Swept(q, a', i + 1, k + 1, b)
  {
    hide Passed, WithoutSkipping;
    var n := |q|;
    assert q[..i + 1] == q[..i] + [q[i]];
    SweepStep(q, i + k, b);
    if i + k + 1 < n {
      PassOne(q, a, a', i, i + k, i + k + 2, q[i + k + 1], b);
    } else {
      PassLast(q, a, a', i, b);
    }
    if i + 1 == n {
      assert q[..n - 1] == q[..i];
    }
  }

  lemma PassLast<Name>(q: seq<Name>, a: seq<Name>, a': seq<Name>, m: nat, b: Name)
    requires q != [] && Passed(q, a, m, |q| - 1, b) && q[|q| - 1] == b && m <= |a'|
    requires forall j :: 0 <= j < m ==> a'[j] == a[j]
    ensures Passed(q, a', m, |q|, b)
  {
    assert a'[..m] == a[..m];
  }

  lemma SweepPanics<Name>(q: seq<Name>, a: seq<Name>, i: nat, k: nat, b: Name)
    requires Swept(q, a, i, k, b) && |q| - k <= i < |q| && a[i] == b
    ensures LateLast(q, b)
  {
    assert q[..|q| - 1] == q[..i] + q[i..|q| - 1];
  }

  lemma SweepEnds<Name>(q: seq<Name>, a: seq<Name>, k: nat, b: Name)
    requires Swept(q, a, |q|, k, b)
    ensures a[..|q| - k] == WithoutSkipping(q, b) && !LateLast(q, b)
  {
    assert WithoutSkipping(q[|q|..], b) == [];
    hide WithoutSkipping, LateLast;
    assert a[..|q| - k] + [] == a[..|q| - k];
  }

  lemma ShiftedPrefix<Name>(a: seq<Name>, a': seq<Name>, i: nat, len: nat, n: nat)
    requires ShiftedLeft(a, a', i, len) && len <= n <= |a|
    ensures ShiftedLeft(a[..n], a'[..n], i, len)
  {
  }

  // ----- The tracker

  /** Bucket names are only ever compared. */
  class Tracker<Name(==, 0)> {
    var counters: Counters
    var resumePoint: Counters
    var queue: array<Name>  // backing array of the slice of queued buckets
    var queued: nat           // its length
    var healed: seq<Name>

    ghost predicate Valid()
      reads this
    {
      queued <= queue.Length
    }

    ghost function Queue(): seq<Name>
      reads this, queue
      requires Valid()
    {
      queue[..queued]
    }

    constructor ()
      ensures Valid() && fresh(queue) && Queue() == [] && healed == [] && counters == resumePoint == ZERO
    {
      queue := new Name[0];
      queued, healed := 0, [];
      counters, resumePoint := ZERO, ZERO;
    }

    method IsHealed(bucket: Name) returns (found: bool)
      ensures found <==> bucket in healed
    {
      for i := 0 to |healed|
        invariant bucket !in healed[..i]
      {
        if healed[i] == bucket {
          return true;
        }
      }
      return false;
    }

    method Resume()
      modifies this`counters
      ensures counters == resumePoint
    {
      counters := resumePoint;
    }

    /** append(q[:i], q[i+1:]...): shifts the tail left in the same backing array. */
    method DeleteAt(i: nat)
      requires Valid() && i < queued
      modifies this`queued, queue
      ensures queued == old(queued) - 1
      ensures ShiftedLeft(old(queue[..]), queue[..], i, old(queued))
    {
      var a, len := queue, queued;
      ghost var before := a[..];
      for j := i to len - 1
        invariant forall k :: 0 <= k < i || j <= k < a.Length ==> a[k] == before[k]
        invariant forall k :: i <= k < j ==> a[k] == before[k + 1]
      {
        a[j] := a[j + 1];
      }
      queued := len - 1;
    }

    /** The loop ranges over the slice as it was at the start, `n` long, while deletions
        shorten the slice and shift its backing array. A deletion past the current end
        panics (slice bounds out of range). */
    method RemoveFromQueue(bucket: Name) returns (panicked: bool)
      requires Valid()
      modifies this`queued, queue
      ensures Valid()
      ensures panicked <==> LateLast(old(Queue()), bucket)
      ensures !panicked ==> Queue() == WithoutSkipping(old(Queue()), bucket)
    {
      ghost var q := Queue();
      var n, i: nat := queued, 0;
      ghost var k: nat := 0;  // deletions so far
      SweepStarts(q, bucket);
      hide Swept, WithoutSkipping, LateLast, ShiftedLeft, Min;
      while i < n
        invariant i <= n == |q| <= queue.Length && k <= i && queued == n - k
        invariant Swept(q, queue[..n], i, k, bucket)
      {
        assert queue[..n][i] == queue[i];
        if queue[i] == bucket {
          if queued < i + 1 {
            SweepPanics(q, queue[..n], i, k, bucket);
            return true;
          }
          ghost var before := queue[..];
          DeleteAt(i);
          ShiftedPrefix(before, queue[..], i, n - k, n);
          assert queue[..][..n] == queue[..n];
          SweepDeletes(q, before[..n], queue[..n], i, k, bucket);
          k := k + 1;
        } else {
          SweepKeeps(q, queue[..n], i, k, bucket);
        }
        i := i + 1;
      }
      SweepEnds(q, queue[..n], k, bucket);
      assert queue[..n][..queued] == queue[..queued];
      return false;
    }

    method BucketDone(bucket: Name) returns (panicked: bool)
      requires Valid()
      modifies this`resumePoint, this`healed, this`queued, queue
      ensures Valid() && resumePoint == counters && healed == old(healed) + [bucket]
      ensures panicked <==> LateLast(old(Queue()), bucket)
      ensures !panicked ==> Queue() == WithoutSkipping(old(Queue()), bucket)
    {
      resumePoint := counters;
      healed := healed + [bucket];
      panicked := RemoveFromQueue(bucket);
    }

    /** Queues the given buckets that are not healed yet, in order. */
    method SetQueuedBuckets(buckets: seq<Name>)
      modifies this`queue, this`queued
      ensures Valid() && fresh(queue) && Queue() == NotIn(buckets, healed)
    {
      queue := new Name[|buckets|];
      queued := 0;
      assert buckets[..0] == [];
      for i := 0 to |buckets|
        invariant queue.Length == |buckets| && queued <= i && fresh(queue)
        invariant queue[..queued] == NotIn(buckets[..i], healed)
      {
        NotInStep(buckets, i, healed);
        if buckets[i] !in healed {
          queue[queued] := buckets[i];
          queued := queued + 1;
        }
      }
      assert buckets[..|buckets|] == buckets;
    }
  }

  /** The elements of `s` that are not in `t`, in order. */
  function NotIn<Name(==)>(s: seq<Name>, t: seq<Name>): seq<Name> {
    if s == [] then []
    else NotIn(s[..|s| - 1], t) + (if s[|s| - 1] in t then [] else [s[|s| - 1]])
  }

  lemma NotInStep<Name>(s: seq<Name>, i: nat, t: seq<Name>)
    requires i < |s|
    ensures NotIn(s[..i + 1], t) == NotIn(s[..i], t) + (if s[i] in t then [] else [s[i]])
  {
    assert s[..i + 1][..i] == s[..i];
  }

  lemma {:induction false} NotInMembers<Name>(s: seq<Name>, t: seq<Name>)
    ensures forall x :: x in NotIn(s, t) <==> x in s && x !in t
  {
    if s != [] {
      NotInMembers(s[..|s| - 1], t);
      assert s == s[..|s| - 1] + [s[|s| - 1]];
    }
  }

  lemma {:induction false} NotInDistinct<Name>(s: seq<Name>, t: seq<Name>)
    requires NoDuplicates(s)
    ensures NoDuplicates(NotIn(s, t))
  {
    if s != [] {
      NotInDistinct(s[..|s| - 1], t);
      NotInMembers(s[..|s| - 1], t);
    }
  }
}
