/** Listing page after page (cmd/bucket-listobjects-handlers.go): each request carries the
    marker the page before ended with. */
module ListRuns {
  import opened Basics
  import opened ListOrder
  import opened ListMerge
  import opened ListPaging

  /** An answer to one request: the merge of a page from each source. */
  ghost predicate IsAnswer(backend: Source, cache: Source, n: nat, marker: Key, r: Page) {
    exists b, c :: IsPage(backend, marker, n, b) && IsPage(cache, marker, n, c) && r == HandlerPage(b, c, n)
  }

  /** A listing under way: every answer but the last was truncated. */
  ghost predicate IsRun(backend: Source, cache: Source, n: nat, marker: Key, rs: seq<Page>)
    decreases |rs|
  {
    && rs != []
    && IsAnswer(backend, cache, n, marker, rs[0])
    && (|rs| > 1 ==> rs[0].truncated && IsRun(backend, cache, n, rs[0].nextMarker, rs[1..]))
  }

  /** What a listing has handed out: keys page by page, objects, prefixes. */
  ghost function Visited(rs: seq<Page>): seq<Key> {
    if rs == [] then [] else Sorted(KeysOn(rs[0].objects, rs[0].prefixes)) + Visited(rs[1..])
  }

  function Objects(rs: seq<Page>): seq<ObjectInfo> {
    if rs == [] then [] else rs[0].objects + Objects(rs[1..])
  }

  function Prefixes(rs: seq<Page>): seq<Key> {
    if rs == [] then [] else rs[0].prefixes + Prefixes(rs[1..])
  }

  // ----- One page

  lemma UnionNames(backend: Source, cache: Source, k: Key)
    requires backend.Valid() && cache.Valid() && k in UnionCatalog(backend, cache)
    ensures !UnionCatalog(backend, cache)[k].isDir ==> UnionCatalog(backend, cache)[k].name == k
  {
  }

  /** A page showing exactly these keys, each once, and asking for more when full. */
  ghost predicate Shows(u: Catalog, f: seq<Key>, n: nat, r: Page)
    requires n > 0
  {
    && Sorted(KeysOn(r.objects, r.prefixes)) == f
    && |r.objects| + |r.prefixes| == |f|
    && r.objects == FileInfos(u, f)
    && r.prefixes == DirKeys(u, f)
    && (r.truncated <==> |f| == n)
    && r.nextMarker == if |f| == n then f[n - 1] else ""
  }

  /** A page shows the first `n` keys of the union after the marker. */
  lemma PageShows(backend: Source, cache: Source, n: nat, marker: Key, r: Page)
    requires backend.Valid() && cache.Valid() && n > 0 && IsAnswer(backend, cache, n, marker, r)
    ensures var u := UnionCatalog(backend, cache); Shows(u, First(u.Keys, marker, n), n, r)
  {
    var u := UnionCatalog(backend, cache);
    var f := First(u.Keys, marker, n);
    var b, c :| IsPage(backend, marker, n, b) && IsPage(cache, marker, n, c) && r == HandlerPage(b, c, n);
    hide *;
    PageOfUnion(backend, cache, marker, n, b, c);
    UnionPageShows(backend, cache, n, marker);
  }

  lemma UnionPageShows(backend: Source, cache: Source, n: nat, marker: Key)
    requires backend.Valid() && cache.Valid() && n > 0
    ensures var u := UnionCatalog(backend, cache); Shows(u, First(u.Keys, marker, n), n, UnionPage(backend, cache, marker, n))
  {
    var u := UnionCatalog(backend, cache);
    var f := First(u.Keys, marker, n);
    FirstSorted(u.Keys, marker, n);
    hide FileInfos, DirKeys, Sorted, UnionCatalog, Elements, KeysOn, First;
    forall k | k in f
      ensures k in u && (!u[k].isDir ==> u[k].name == k)
    {
      UnionNames(backend, cache, k);
    }
    SplitByKind(u, f);
  }

  lemma FirstSorted(keys: set<Key>, marker: Key, n: nat)
    ensures var f := First(keys, marker, n);
            Sorted(Elements(f)) == f && |f| <= n && forall k :: k in f ==> k in keys
  {
    FirstIn(keys, marker, n);
    TakeIsInitial(After(keys, marker), n);
    TakeSize(Sorted(After(keys, marker)), n);
    var f := First(keys, marker, n);
    assert forall k :: k in f ==> k in Elements(f);
    hide Sorted, Elements, Take, After;
  }

  // ----- From page to page

  /** The keys after a full page's last key are the remaining ones. */
  lemma AfterPage(keys: set<Key>, marker: Key, n: nat)
    requires 0 < n <= |Sorted(After(keys, marker))|
    ensures var s := Sorted(After(keys, marker));
            Sorted(After(keys, s[n - 1])) == s[n..]
  {
    var s := Sorted(After(keys, marker));
    var last := s[n - 1];
    assert last in Elements(s);
    assert Ascending(s[n..]);
    hide Sorted;
    forall k
      ensures k in After(keys, last) <==> k in s[n..]
    {
      if k in s[n..] {
        var j :| n <= j < |s| && s[j] == k;
        assert Less(s[n - 1], s[j]) && k in Elements(s);
      } else if k in After(keys, last) {
        BeyondLast(s, n, k, keys, marker);
      }
    }
    assert Elements(s[n..]) == After(keys, last);
    AscendingUnique(s[n..], Sorted(After(keys, last)));
  }

  lemma BeyondLast(s: seq<Key>, n: nat, k: Key, keys: set<Key>, marker: Key)
    requires Ascending(s) && Elements(s) == After(keys, marker) && 0 < n <= |s|
    requires k in keys && Less(s[n - 1], k)
    ensures k in s[n..]
  {
    assert s[n - 1] in Elements(s);
    LessTransitive(marker, s[n - 1], k);
    assert k in Elements(s);
    var j :| 0 <= j < |s| && s[j] == k;
    LessIrreflexive(k);
    if j < n - 1 {
      assert Less(s[j], s[n - 1]);
      LessTransitive(k, s[n - 1], k);
    }
    assert s[n..][j - n] == k;
  }

  lemma {:induction false} EntriesConcat(u: Catalog, a: seq<Key>, b: seq<Key>)
    ensures FileInfos(u, a + b) == FileInfos(u, a) + FileInfos(u, b)
    ensures DirKeys(u, a + b) == DirKeys(u, a) + DirKeys(u, b)
  {
    if b == [] {
      assert a + b == a;
    } else {
      var m := |b| - 1;
      EntriesConcat(u, a, b[..m]);
      assert (a + b)[..|a + b| - 1] == a + b[..m];
    }
  }

  ghost predicate HasShown(u: Catalog, t: seq<Key>, rs: seq<Page>) {
    Visited(rs) == t && Objects(rs) == FileInfos(u, t) && Prefixes(rs) == DirKeys(u, t)
  }

  /** How many of `total` keys a listing has shown: all, or so many full pages. */
  function Done(rs: seq<Page>, n: nat, total: nat): nat
    requires rs != []
  {
    if rs[|rs| - 1].truncated then |rs| * n else total
  }

  /** A listing of `s` has come exactly so far. */
  ghost predicate Covers(u: Catalog, s: seq<Key>, n: nat, rs: seq<Page>)
    requires rs != []
  {
    && Done(rs, n, |s|) <= |s|
    && (!rs[|rs| - 1].truncated ==> (|rs| - 1) * n <= |s| < |rs| * n)
    && HasShown(u, s[..Done(rs, n, |s|)], rs)
  }

  lemma OnePage(u: Catalog, s: seq<Key>, n: nat, r: Page)
    requires n > 0 && Shows(u, Take(s, n), n, r)
    ensures Covers(u, s, n, [r])
  {
    var rs := [r];
    assert rs[1..] == [];
    assert Visited(rs) == Sorted(KeysOn(r.objects, r.prefixes));
    assert Objects(rs) == r.objects + [] == r.objects;
    assert Prefixes(rs) == r.prefixes + [] == r.prefixes;
    hide Sorted, KeysOn, FileInfos, DirKeys, Visited, Objects, Prefixes;
    assert s[..|s|] == s;
  }

  lemma Unfold(rs: seq<Page>)
    requires rs != []
    ensures Visited(rs) == Sorted(KeysOn(rs[0].objects, rs[0].prefixes)) + Visited(rs[1..])
    ensures Objects(rs) == rs[0].objects + Objects(rs[1..])
    ensures Prefixes(rs) == rs[0].prefixes + Prefixes(rs[1..])
  {
  }

  lemma ShownThenRun(u: Catalog, f: seq<Key>, t: seq<Key>, n: nat, rs: seq<Page>)
    requires rs != [] && n > 0 && Shows(u, f, n, rs[0]) && HasShown(u, t, rs[1..])
    ensures HasShown(u, f + t, rs)
  {
    Unfold(rs);
    EntriesConcat(u, f, t);
    hide Sorted, KeysOn, FileInfos, DirKeys, Visited, Objects, Prefixes;
  }

  /** A full page before a listing of what comes after it. */
  lemma PageThenRun(u: Catalog, s: seq<Key>, n: nat, rs: seq<Page>)
    requires |rs| > 1 && 0 < n <= |s| && Shows(u, s[..n], n, rs[0])
    requires Covers(u, s[n..], n, rs[1..])
    ensures Covers(u, s, n, rs)
  {
    var rest, f := rs[1..], s[..n];
    assert rest[|rest| - 1] == rs[|rs| - 1];
    Distribute(|rs| - 1, 1, n);
    Distribute(|rs| - 2, 1, n);
    hide HasShown, Shows;
    var done := Done(rest, n, |s| - n);
    assert Done(rs, n, |s|) == n + done;
    assert s[..n + done] == f + s[n..][..done];
    ShownThenRun(u, f, s[n..][..done], n, rs);
  }

  lemma FullPage(keys: set<Key>, marker: Key, n: nat)
    requires n > 0
    ensures var s, f := Sorted(After(keys, marker)), First(keys, marker, n);
            |f| == n ==> n <= |s| && f == s[..n] && Sorted(After(keys, f[n - 1])) == s[n..]
  {
    var s := Sorted(After(keys, marker));
    if n <= |s| {
      AfterPage(keys, marker, n);
      assert First(keys, marker, n) == s[..n];
    }
  }

  lemma RunStep(u: Catalog, n: nat, marker: Key, rs: seq<Page>)
    requires |rs| > 1 && n > 0 && Shows(u, First(u.Keys, marker, n), n, rs[0]) && rs[0].truncated
    requires Covers(u, Sorted(After(u.Keys, rs[0].nextMarker)), n, rs[1..])
    ensures Covers(u, Sorted(After(u.Keys, marker)), n, rs)
  {
    FullPage(u.Keys, marker, n);
    hide Covers, First, After, Sorted, KeysOn, FileInfos, DirKeys;
    var s := Sorted(After(u.Keys, marker));
    assert Shows(u, s[..n], n, rs[0]);
    PageThenRun(u, s, n, rs);
  }

  /** Following the markers from any marker lists the union after it in ascending order, every
      key once with its newest object: so many full pages while truncated, and everything,
      after one page more than there are full ones, when not. */
  lemma {:induction false} RunCoversUnion(backend: Source, cache: Source, n: nat, marker: Key, rs: seq<Page>)
    requires backend.Valid() && cache.Valid() && n > 0 && IsRun(backend, cache, n, marker, rs)
    ensures var u := UnionCatalog(backend, cache); Covers(u, Sorted(After(u.Keys, marker)), n, rs)
    decreases |rs|
  {
    var u := UnionCatalog(backend, cache);
    PageShows(backend, cache, n, marker, rs[0]);
    hide IsAnswer, UnionCatalog, Shows, Covers, First, After, Sorted;
    var s := Sorted(After(u.Keys, marker));
    if |rs| > 1 {
      RunCoversUnion(backend, cache, n, rs[0].nextMarker, rs[1..]);
      hide *;
      RunStep(u, n, marker, rs);
    } else {
      assert rs == [rs[0]];
      FirstDefined(u.Keys, marker, n);
      hide *;
      OnePage(u, s, n, rs[0]);
    }
  }

  /** No listing goes on for ever: it is never longer than the keys allow. */
  lemma RunIsBounded(backend: Source, cache: Source, n: nat, marker: Key, rs: seq<Page>)
    requires backend.Valid() && cache.Valid() && n > 0 && IsRun(backend, cache, n, marker, rs)
    ensures |rs| <= |After(UnionCatalog(backend, cache).Keys, marker)| / n + 1
    ensures !rs[|rs| - 1].truncated <==> |rs| == |After(UnionCatalog(backend, cache).Keys, marker)| / n + 1
  {
    RunCoversUnion(backend, cache, n, marker, rs);
    SortedSize(After(UnionCatalog(backend, cache).Keys, marker));
    hide IsRun, UnionCatalog, Sorted, KeysOn, After, Visited, Objects, Prefixes, FileInfos, DirKeys;
    PagesNeeded(|rs|, n, |After(UnionCatalog(backend, cache).Keys, marker)|, rs[|rs| - 1].truncated);
  }

  lemma PagesNeeded(pages: nat, n: nat, total: nat, more: bool)
    requires n > 0 && pages > 0
    requires if more then pages * n <= total else (pages - 1) * n <= total < pages * n
    ensures pages <= total / n + 1
    ensures !more <==> pages == total / n + 1
  {
    var q := total / n;
    assert q * n <= total < q * n + n;
    if more {
      if q < pages {
        Distribute(q, 1, n);
        MulMonotone(q + 1, pages, n);
      }
    } else {
      Distribute(pages - 1, 1, n);
      if q < pages - 1 {
        Distribute(q, 1, n);
        MulMonotone(q + 1, pages - 1, n);
      } else if q >= pages {
        MulMonotone(pages, q, n);
      }
    }
  }

  /** From the start: a finished listing shows every key of the union exactly once, ascending. */
  lemma WholeListing(backend: Source, cache: Source, n: nat, rs: seq<Page>)
    requires backend.Valid() && cache.Valid() && n > 0 && IsRun(backend, cache, n, "", rs)
    requires !rs[|rs| - 1].truncated && "" !in UnionCatalog(backend, cache).Keys
    ensures var u := UnionCatalog(backend, cache);
            && Visited(rs) == Sorted(u.Keys)
            && Objects(rs) == FileInfos(u, Sorted(u.Keys))
            && Prefixes(rs) == DirKeys(u, Sorted(u.Keys))
  {
    var u := UnionCatalog(backend, cache);
    RunCoversUnion(backend, cache, n, "", rs);
    assert After(u.Keys, "") == u.Keys;
    hide IsRun, UnionCatalog, Sorted, KeysOn, After, Visited, Objects, Prefixes, FileInfos, DirKeys;
    assert Sorted(u.Keys)[..|Sorted(u.Keys)|] == Sorted(u.Keys);
  }

  // ----- Every listing can be finished

  function Pick(m: map<Key, ObjectInfo>, keys: seq<Key>): seq<ObjectInfo> {
    if keys == [] then [] else (if keys[0] in m then [m[keys[0]]] else []) + Pick(m, keys[1..])
  }

  function PickPrefixes(prefixes: set<Key>, keys: seq<Key>): seq<Key> {
    if keys == [] then [] else (if keys[0] in prefixes then [keys[0]] else []) + PickPrefixes(prefixes, keys[1..])
  }

  lemma {:induction false} PickExact(s: Source, keys: seq<Key>)
    requires s.Valid()
    ensures forall o :: o in Pick(s.objects, keys) <==> o.name in keys && o.name in s.objects && s.objects[o.name] == o
    ensures forall k :: k in PickPrefixes(s.prefixes, keys) <==> k in keys && k in s.prefixes
  {
    if keys != [] {
      PickExact(s, keys[1..]);
      assert keys == [keys[0]] + keys[1..];
    }
  }

  /** Every source has a page for every request. */
  lemma PageExists(s: Source, marker: Key, n: nat) returns (p: Page)
    requires s.Valid()
    ensures IsPage(s, marker, n, p)
  {
    var f := First(s.Keys(), marker, n);
    p := Page(Pick(s.objects, f), PickPrefixes(s.prefixes, f), false, "");
    PickExact(s, f);
    assert forall k :: k in Elements(f) <==> k in f;
    hide First, Elements, Pick, PickPrefixes;
  }

  lemma AnswerExists(backend: Source, cache: Source, n: nat, marker: Key) returns (r: Page)
    requires backend.Valid() && cache.Valid()
    ensures IsAnswer(backend, cache, n, marker, r)
  {
    var b := PageExists(backend, marker, n);
    var c := PageExists(cache, marker, n);
    r := HandlerPage(b, c, n);
    hide IsPage, HandlerPage;
  }

  /** After a truncated answer fewer keys are left. */
  lemma FewerLeft(u: Catalog, n: nat, marker: Key, r: Page)
    requires n > 0 && Shows(u, First(u.Keys, marker, n), n, r) && r.truncated
    ensures |Sorted(After(u.Keys, r.nextMarker))| < |Sorted(After(u.Keys, marker))|
  {
    FullPage(u.Keys, marker, n);
    hide KeysOn, FileInfos, DirKeys, Sorted, After, First;
  }

  lemma Extend(backend: Source, cache: Source, n: nat, marker: Key, r: Page, rest: seq<Page>)
    requires IsAnswer(backend, cache, n, marker, r) && r.truncated && IsRun(backend, cache, n, r.nextMarker, rest)
    ensures IsRun(backend, cache, n, marker, [r] + rest)
  {
    hide IsAnswer;
    assert ([r] + rest)[1..] == rest;
  }

  /** From every marker there is a listing that runs to its end. */
  lemma {:induction false} ListingFinishes(backend: Source, cache: Source, n: nat, marker: Key) returns (rs: seq<Page>)
    requires backend.Valid() && cache.Valid() && n > 0
    ensures rs != [] && IsRun(backend, cache, n, marker, rs) && !rs[|rs| - 1].truncated
    decreases |Sorted(After(UnionCatalog(backend, cache).Keys, marker))|
  {
    var r := AnswerExists(backend, cache, n, marker);
    if r.truncated {
      hide *;
      PageShows(backend, cache, n, marker, r);
      FewerLeft(UnionCatalog(backend, cache), n, marker, r);
      var rest := ListingFinishes(backend, cache, n, r.nextMarker);
      Extend(backend, cache, n, marker, r, rest);
      rs := [r] + rest;
      assert rs[|rs| - 1] == rest[|rest| - 1];
    } else {
      hide IsAnswer;
      rs := [r];
    }
  }
}
