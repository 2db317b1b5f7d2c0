/** Ordered key sets: what sort.Strings computes, and the first keys after a marker. */
module ListOrder {

  type Key = string

  /** Byte-wise lexicographic order. */
  predicate Less(a: Key, b: Key) {
    b != [] && (a == [] || a[0] < b[0] || (a[0] == b[0] && Less(a[1..], b[1..])))
  }

  lemma {:induction false} LessIrreflexive(a: Key)
    ensures !Less(a, a)
  {
    if a != [] {
      LessIrreflexive(a[1..]);
    }
  }

  lemma {:induction false} LessTransitive(a: Key, b: Key, c: Key)
    requires Less(a, b) && Less(b, c)
    ensures Less(a, c)
  {
    if a != [] && a[0] == b[0] == c[0] {
      LessTransitive(a[1..], b[1..], c[1..]);
    }
  }

  lemma {:induction false} LessTotal(a: Key, b: Key)
    ensures a == b || Less(a, b) || Less(b, a)
  {
    if a != [] && b != [] && a[0] == b[0] {
      LessTotal(a[1..], b[1..]);
      assert a == [a[0]] + a[1..] && b == [b[0]] + b[1..];
    }
  }

  /** The order in characters: at the first difference `a` has the smaller one, or ends. */
  ghost predicate ComesBefore(a: Key, b: Key) {
    exists i :: 0 <= i <= |a| && i < |b| && a[..i] == b[..i] && (i == |a| || a[i] < b[i])
  }

  /** What the order is, wherever two keys first differ or one of them ends. */
  lemma {:induction false} LessAtDifference(a: Key, b: Key, i: nat)
    requires i <= |a| && i <= |b| && a[..i] == b[..i] && (i == |a| || i == |b| || a[i] != b[i])
    ensures Less(a, b) <==> i < |b| && (i == |a| || a[i] < b[i])
  {
    if i > 0 {
      assert a[0] == a[..i][0] == b[..i][0] == b[0];
      assert a[1..][..i - 1] == a[..i][1..] == b[..i][1..] == b[1..][..i - 1];
      LessAtDifference(a[1..], b[1..], i - 1);
    }
  }

  lemma {:induction false} Difference(a: Key, b: Key) returns (i: nat)
    ensures i <= |a| && i <= |b| && a[..i] == b[..i] && (i == |a| || i == |b| || a[i] != b[i])
  {
    i := 0;
    while i < |a| && i < |b| && a[i] == b[i]
      invariant i <= |a| && i <= |b| && a[..i] == b[..i]
    {
      i := i + 1;
    }
  }

  lemma LessExact(a: Key, b: Key)
    ensures Less(a, b) <==> ComesBefore(a, b)
  {
    var i := Difference(a, b);
    LessAtDifference(a, b, i);
    if ComesBefore(a, b) {
      var j :| 0 <= j <= |a| && j < |b| && a[..j] == b[..j] && (j == |a| || a[j] < b[j]);
      LessAtDifference(a, b, j);
    }
  }

  // ----- Ascending sequences

  ghost predicate Ascending(s: seq<Key>) {
    forall i, j :: 0 <= i < j < |s| ==> Less(s[i], s[j])
  }

  lemma InOrder(s: seq<Key>)
    requires Ascending(s)
    ensures forall i, j :: 0 <= i < j < |s| ==> ComesBefore(s[i], s[j])
  {
    forall i, j | 0 <= i < j < |s|
      ensures ComesBefore(s[i], s[j])
    {
      LessExact(s[i], s[j]);
    }
  }

  ghost function Elements(s: seq<Key>): set<Key> {
    set k | k in s
  }

  /** Every key of `a` comes before every key of `b`. */
  ghost predicate Before(a: set<Key>, b: set<Key>) {
    forall x, y :: x in a && y in b ==> Less(x, y)
  }

  lemma AscendingDistinct(s: seq<Key>)
    requires Ascending(s)
    ensures forall i, j :: 0 <= i < j < |s| ==> s[i] != s[j]
  {
    forall i, j | 0 <= i < j < |s|
      ensures s[i] != s[j]
    {
      LessIrreflexive(s[i]);
    }
  }

  lemma {:induction false} AscendingSize(s: seq<Key>)
    requires Ascending(s)
    ensures |Elements(s)| == |s|
  {
    if s != [] {
      var n := |s| - 1;
      hide Less;
      AscendingDistinct(s);
      AscendingSize(s[..n]);
      assert Elements(s) == Elements(s[..n]) + {s[n]};
    }
  }

  lemma NoElements(s: seq<Key>)
    ensures Elements(s) == {} <==> s == []
  {
    if s != [] {
      assert s[0] in Elements(s);
    }
  }

  /** Only one ascending sequence has given elements. */
  lemma {:induction false} AscendingUnique(s: seq<Key>, t: seq<Key>)
    requires Ascending(s) && Ascending(t) && Elements(s) == Elements(t)
    ensures s == t
  {
    NoElements(s);
    NoElements(t);
    if s != [] && t != [] {
      hide Less;
      LastIsGreatest(s, t);
      var n, m := |s| - 1, |t| - 1;
      AscendingDistinct(s);
      AscendingDistinct(t);
      assert Elements(s[..n]) == Elements(s) - {s[n]};
      assert Elements(t[..m]) == Elements(t) - {t[m]};
      AscendingUnique(s[..n], t[..m]);
      assert s == s[..n] + [s[n]] && t == t[..m] + [t[m]];
    }
  }

  lemma LastIsGreatest(s: seq<Key>, t: seq<Key>)
    requires s != [] && t != [] && Ascending(s) && Ascending(t) && Elements(s) == Elements(t)
    ensures s[|s| - 1] == t[|t| - 1]
  {
    var a, b := s[|s| - 1], t[|t| - 1];
    assert a in Elements(t) && b in Elements(s);
    var i :| 0 <= i < |t| && t[i] == a;
    var j :| 0 <= j < |s| && s[j] == b;
    if i < |t| - 1 && j < |s| - 1 {
      assert Less(a, b) && Less(b, a);
      LessTransitive(a, b, a);
      LessIrreflexive(a);
      assert false;
    }
  }

  /** Inserting into an ascending sequence. */
  function Insert(x: Key, s: seq<Key>): seq<Key> {
    if s == [] || Less(x, s[0]) then [x] + s else [s[0]] + Insert(x, s[1..])
  }

  lemma {:induction false} InsertAscends(x: Key, s: seq<Key>)
    requires Ascending(s) && x !in s
    ensures Ascending(Insert(x, s)) && Elements(Insert(x, s)) == Elements(s) + {x}
  {
    hide Less;
    if s == [] {
    } else if Less(x, s[0]) {
      forall i | 0 <= i < |s|
        ensures Less(x, s[i])
      {
        if i > 0 {
          LessTransitive(x, s[0], s[i]);
        }
      }
    } else {
      LessTotal(x, s[0]);
      InsertAscends(x, s[1..]);
      var t := Insert(x, s[1..]);
      forall j | 0 <= j < |t|
        ensures Less(s[0], t[j])
      {
        assert t[j] in Elements(t);
      }
      assert Elements(s) == {s[0]} + Elements(s[1..]);
      assert Elements([s[0]] + t) == {s[0]} + Elements(t);
    }
  }

  /** The keys of a set in ascending order. */
  ghost function Sorted(keys: set<Key>): (s: seq<Key>)
    ensures Ascending(s) && Elements(s) == keys
  {
    if keys == {} then [] else
      var k :| k in keys;
      var rest := Sorted(keys - {k});
      assert k !in Elements(rest);
      InsertAscends(k, rest);
      Insert(k, rest)
  }

  /** sort.Strings, on keys that are all different. */
  method SortStrings(keys: seq<Key>) returns (s: seq<Key>)
    requires forall i, j :: 0 <= i < j < |keys| ==> keys[i] != keys[j]
    ensures forall k :: k in s <==> k in keys
    ensures forall i, j :: 0 <= i < j < |s| ==> ComesBefore(s[i], s[j])
    ensures s == Sorted(Elements(keys))
  {
    s := [];
    hide Less, Insert, Sorted;
    for i := 0 to |keys|
      invariant Ascending(s) && Elements(s) == Elements(keys[..i])
    {
      assert keys[i] !in keys[..i];
      assert keys[i] !in Elements(s);
      assert Elements(keys[..i + 1]) == Elements(keys[..i]) + {keys[i]};
      InsertAscends(keys[i], s);
      s := Insert(keys[i], s);
    }
    assert keys[..|keys|] == keys;
    AscendingUnique(s, Sorted(Elements(keys)));
    InOrder(s);
    assert forall k :: k in s <==> k in Elements(s);
  }

  /** A set whose keys all come before those of another is listed first. */
  lemma SortedSplits(a: set<Key>, b: set<Key>)
    requires Before(a, b)
    ensures Sorted(a + b) == Sorted(a) + Sorted(b)
  {
    hide Less, Insert, Sorted;
    var s, t := Sorted(a), Sorted(b);
    forall i, j | 0 <= i < j < |s + t|
      ensures Less((s + t)[i], (s + t)[j])
    {
      if i < |s| <= j {
        assert s[i] in Elements(s) && t[j - |s|] in Elements(t);
      }
    }
    assert Elements(s + t) == Elements(s) + Elements(t);
    AscendingUnique(Sorted(a + b), s + t);
  }

  // ----- The first keys after a marker

  ghost function After(keys: set<Key>, marker: Key): set<Key> {
    set k | k in keys && Less(marker, k)
  }

  ghost function Take(s: seq<Key>, n: nat): seq<Key> {
    if n < |s| then s[..n] else s
  }

  /** The first `n` keys strictly after the marker. */
  ghost function First(keys: set<Key>, marker: Key, n: nat): seq<Key> {
    Take(Sorted(After(keys, marker)), n)
  }

  /** A prefix of a sorted set comes before what is left. */
  lemma TakeIsInitial(keys: set<Key>, n: nat)
    ensures var f := Elements(Take(Sorted(keys), n));
            && f <= keys && Before(f, keys - f) && Sorted(f) == Take(Sorted(keys), n)
            && |f| == |Take(Sorted(keys), n)| && (|f| < n ==> f == keys)
  {
    hide Less, Insert, Sorted;
    var s, t := Sorted(keys), Take(Sorted(keys), n);
    var f := Elements(t);
    assert forall i :: 0 <= i < |t| ==> s[i] == t[i] && s[i] in f;
    forall x, y | x in f && y in keys - f
      ensures Less(x, y)
    {
      assert x in t && y in Elements(s);
      var i :| 0 <= i < |t| && t[i] == x;
      var j :| 0 <= j < |s| && s[j] == y;
    }
    assert forall x :: x in t ==> x in Elements(s);
    AscendingSize(t);
    AscendingUnique(Sorted(f), t);
  }

  lemma SortedSize(keys: set<Key>)
    ensures |Sorted(keys)| == |keys|
  {
    hide Sorted;
    AscendingSize(Sorted(keys));
  }

  lemma SubsetSize<T>(a: set<T>, b: set<T>)
    requires a <= b
    ensures |a| <= |b|
  {
    assert b == a + (b - a);
  }

  lemma BeforeSubsets(a: set<Key>, b: set<Key>, a': set<Key>, b': set<Key>)
    requires Before(a, b) && a' <= a && b' <= b
    ensures Before(a', b')
  {
    hide Less;
  }

  lemma TakeKeepsFront(p: seq<Key>, q: seq<Key>, n: nat)
    requires |p| <= n
    ensures Elements(p) <= Elements(Take(p + q, n))
  {
    forall x | x in p
      ensures x in Take(p + q, n)
    {
      var i :| 0 <= i < |p| && p[i] == x;
      assert Take(p + q, n)[i] == x;
    }
  }

  /** The keys of `part` among the first `n` of `whole` are among the first `n` of `part`. */
  lemma FirstOfPart(part: set<Key>, whole: set<Key>, n: nat)
    requires part <= whole
    ensures part * Elements(Take(Sorted(whole), n)) <= Elements(Take(Sorted(part), n))
  {
    var f := Elements(Take(Sorted(whole), n));
    TakeIsInitial(whole, n);
    assert |f| <= n;
    hide Less, Insert, Sorted, Take, Before, Elements, Ascending;
    var low, high := part * f, part - f;
    assert part == low + high;
    BeforeSubsets(f, whole - f, low, high);
    SortedSplits(low, high);
    SubsetSize(low, f);
    AscendingSize(Sorted(low));
    TakeKeepsFront(Sorted(low), Sorted(high), n);
  }

  /** Any set between the first `n` keys and all keys has the same first `n` keys. */
  lemma FirstOfBetween(between: set<Key>, whole: set<Key>, n: nat)
    requires Elements(Take(Sorted(whole), n)) <= between <= whole
    ensures Take(Sorted(between), n) == Take(Sorted(whole), n)
  {
    hide Less, Insert, Sorted;
    var t := Take(Sorted(whole), n);
    var f := Elements(t);
    TakeIsInitial(whole, n);
    assert between == f + (between - f);
    BeforeSubsets(f, whole - f, f, between - f);
    SortedSplits(f, between - f);
    if |f| < n {
      assert between == whole;
    } else {
      assert Sorted(between)[..|t|] == t;
    }
  }

  /** The first `n` of a union are found in the first `n` of each part. */
  lemma FirstOfUnion(a: set<Key>, b: set<Key>, n: nat)
    ensures var merged := Elements(Take(Sorted(a), n)) + Elements(Take(Sorted(b), n));
            && merged <= a + b
            && Elements(Take(Sorted(a + b), n)) <= merged
            && Take(Sorted(merged), n) == Take(Sorted(a + b), n)
  {
    hide Less, Insert, Sorted, Take, Before, Elements;
    var f := Elements(Take(Sorted(a + b), n));
    FirstOfPart(a, a + b, n);
    FirstOfPart(b, a + b, n);
    TakeIsInitial(a, n);
    TakeIsInitial(b, n);
    TakeIsInitial(a + b, n);
    var merged := Elements(Take(Sorted(a), n)) + Elements(Take(Sorted(b), n));
    assert f == a * f + b * f;
    FirstOfBetween(merged, a + b, n);
  }
}
