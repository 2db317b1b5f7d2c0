/** The listing handlers (cmd/bucket-listobjects-handlers.go): a page from the backend and
    one from the cache become one page, and following the markers of such pages lists the
    union of both sources. */
module ListPaging {
  import opened ListOrder
  import opened ListMerge

  // ----- The handler

  datatype Page = Page(objects: seq<ObjectInfo>, prefixes: seq<Key>, truncated: bool, nextMarker: Key)

  /** Everything on two pages together. */
  ghost function PageCatalog(backend: Page, cache: Page): Catalog {
    WithPrefixes(MergeAll(backend.objects + cache.objects), Elements(backend.prefixes) + Elements(cache.prefixes))
  }

  /** The marker of the merged page wins; without one the backend's own answer stays. */
  ghost function HandlerPage(backend: Page, cache: Page, maxKeys: int): Page {
    var l := LimitOf(PageCatalog(backend, cache), maxKeys);
    if l.nextMarker != "" then Page(l.objects, l.prefixes, true, l.nextMarker)
    else Page(l.objects, l.prefixes, backend.truncated, backend.nextMarker)
  }

  lemma {:induction false} ByNameDistinct(s: seq<ObjectInfo>)
    requires forall i, j :: 0 <= i < j < |s| ==> s[i].name != s[j].name
    ensures forall k, o :: k in ByName(s) && ByName(s)[k] == o <==> o in s && o.name == k
  {
    if s != [] {
      var n := |s| - 1;
      ByNameDistinct(s[..n]);
      assert s == s[..n] + [s[n]];
    }
  }

  lemma ListedByName(s: seq<ObjectInfo>, m: Catalog)
    requires Lists(s, m) && forall k :: k in m ==> m[k].name == k
    ensures ByName(s) == m
  {
    ByNameDistinct(s);
    hide ByName;
    forall k
      ensures k in ByName(s) <==> k in m
      ensures k in m ==> ByName(s)[k] == m[k]
    {
      if k in m {
        assert m[k] in s;
      }
      if k in ByName(s) {
        assert ByName(s)[k] in s;
      }
    }
  }

  method ListHandler(backend: Page, cache: Page, maxKeys: int) returns (r: Page)
    ensures r == HandlerPage(backend, cache, maxKeys)
  {
    var objects := MergeListObjects(backend.objects, cache.objects);
    var prefixes := MergePrefixes(backend.prefixes, cache.prefixes);
    assert Elements(prefixes) == Elements(backend.prefixes) + Elements(cache.prefixes);
    forall k | k in MergeAll(backend.objects + cache.objects)
      ensures MergeAll(backend.objects + cache.objects)[k].name == k
    {
      var i := MergeKeepsNewest(backend.objects + cache.objects, k);
    }
    hide MergeAll, LimitOf, WithPrefixes, ByName, Elements;
    ListedByName(objects, MergeAll(backend.objects + cache.objects));
    var l := LimitMergeObjects(objects, prefixes, maxKeys);
    r := Page(l.objects, l.prefixes, backend.truncated, backend.nextMarker);
    if l.nextMarker != "" {
      r := r.(truncated := true, nextMarker := l.nextMarker);
    }
  }

  // ----- Sources

  /** Everything a source would list, were there no limit. */
  datatype Source = Source(objects: map<Key, ObjectInfo>, prefixes: set<Key>) {
    ghost predicate Valid() {
      forall k :: k in objects ==> objects[k].name == k
    }

    ghost function Keys(): set<Key> {
      objects.Keys + prefixes
    }
  }

  /** The page of a source: exactly its first `n` keys strictly after the marker. */
  ghost predicate IsPage(s: Source, marker: Key, n: nat, p: Page) {
    var f := Elements(First(s.Keys(), marker, n));
    && (forall o :: o in p.objects <==> o.name in f && o.name in s.objects && s.objects[o.name] == o)
    && (forall k :: k in p.prefixes <==> k in f && k in s.prefixes)
    && (p.truncated ==> |f| == n)
    && (!p.truncated ==> p.nextMarker == "")
  }

  /** The newest object of a name across both complete sources; a tie goes to the backend. */
  function Newest(backend: Source, cache: Source, k: Key): ObjectInfo
    requires k in backend.objects || k in cache.objects
  {
    if k !in backend.objects then cache.objects[k]
    else if k in cache.objects && cache.objects[k].modTime > backend.objects[k].modTime then cache.objects[k]
    else backend.objects[k]
  }

  /** What the union of both sources holds. */
  function UnionCatalog(backend: Source, cache: Source): Catalog {
    map k | k in backend.objects.Keys + cache.objects.Keys + backend.prefixes + cache.prefixes ::
      if k in backend.prefixes || k in cache.prefixes then DIRECTORY else Newest(backend, cache, k)
  }

  /** The page a single source holding the union would give. */
  ghost function UnionPage(backend: Source, cache: Source, marker: Key, n: nat): Page {
    var u := UnionCatalog(backend, cache);
    var f := First(u.Keys, marker, n);
    if n == 0 || |f| < n then Page(FileInfos(u, f), DirKeys(u, f), false, "")
    else Page(FileInfos(u, f), DirKeys(u, f), true, f[n - 1])
  }

  // ----- One page

  lemma UnionKeys(backend: Source, cache: Source, marker: Key)
    ensures UnionCatalog(backend, cache).Keys == backend.Keys() + cache.Keys()
    ensures After(UnionCatalog(backend, cache).Keys, marker) == After(backend.Keys(), marker) + After(cache.Keys(), marker)
  {
    hide Less, Newest;
  }

  lemma FirstIn(keys: set<Key>, marker: Key, n: nat)
    ensures Elements(First(keys, marker, n)) <= After(keys, marker) <= keys
  {
    TakeIsInitial(After(keys, marker), n);
    hide Sorted, Less, Take;
  }

  lemma FirstOfSource(part: set<Key>, whole: set<Key>, marker: Key, n: nat, k: Key)
    requires part <= whole && k in part && k in Elements(First(whole, marker, n))
    ensures k in Elements(First(part, marker, n))
  {
    FirstIn(whole, marker, n);
    hide Less;
    assert After(part, marker) <= After(whole, marker);
    FirstOfPart(After(part, marker), After(whole, marker), n);
    hide Elements, Sorted, Take;
  }

  lemma Occurs(l: seq<ObjectInfo>, o: ObjectInfo)
    requires o in l
    ensures exists j :: 0 <= j < |l| && l[j].name == o.name
  {
    var j :| 0 <= j < |l| && l[j] == o;
    assert l[j].name == o.name;
  }

  lemma PageKeys(backend: Source, cache: Source, marker: Key, n: nat, b: Page, c: Page)
    requires IsPage(backend, marker, n, b) && IsPage(cache, marker, n, c) && backend.Valid() && cache.Valid()
    ensures PageCatalog(b, c).Keys ==
            Elements(First(backend.Keys(), marker, n)) + Elements(First(cache.Keys(), marker, n))
  {
    FirstIn(backend.Keys(), marker, n);
    FirstIn(cache.Keys(), marker, n);
    assert forall k :: k in Elements(b.prefixes) + Elements(c.prefixes) <==> k in b.prefixes || k in c.prefixes;
    hide First, MergeAll, Elements;
    var l := b.objects + c.objects;
    var keys := Elements(First(backend.Keys(), marker, n)) + Elements(First(cache.Keys(), marker, n));
    forall k
      ensures k in PageCatalog(b, c) <==> k in keys
    {
      var i := MergeKeepsNewest(l, k);
      if k in MergeAll(l) {
        assert l[i] in b.objects || l[i] in c.objects;
      } else if k in backend.objects && k in Elements(First(backend.Keys(), marker, n)) {
        Occurs(l, backend.objects[k]);
      } else if k in cache.objects && k in Elements(First(cache.Keys(), marker, n)) {
        Occurs(l, cache.objects[k]);
      }
    }
  }

  /** Merging lists that hold what the complete sources have under a name. */
  lemma NewestMerged(backend: Source, cache: Source, b: seq<ObjectInfo>, c: seq<ObjectInfo>, k: Key)
    requires backend.Valid() && cache.Valid() && (k in backend.objects || k in cache.objects)
    requires forall o :: o in b && o.name == k ==> k in backend.objects && o == backend.objects[k]
    requires forall o :: o in c && o.name == k ==> k in cache.objects && o == cache.objects[k]
    requires k in backend.objects ==> backend.objects[k] in b
    requires k in cache.objects ==> cache.objects[k] in c
    ensures k in MergeAll(b + c) && MergeAll(b + c)[k] == Newest(backend, cache, k)
  {
    hide MergeAll;
    var l := b + c;
    var i := MergeKeepsNewest(l, k);
    assert k in MergeAll(l) by {
      Occurs(l, if k in backend.objects then backend.objects[k] else cache.objects[k]);
    }
    if i < |b| {
      assert l[i] in b;
      if k in cache.objects {
        var j :| 0 <= j < |c| && c[j] == cache.objects[k];
        assert l[|b| + j] == c[j];
      }
    } else {
      assert l[i] == c[i - |b|];
      if k in backend.objects {
        var j :| 0 <= j < |b| && b[j] == backend.objects[k];
        assert l[j] == b[j];
      }
    }
  }

  /** On the keys of the page the merged pages hold what the union holds. */
  lemma PageEntry(backend: Source, cache: Source, marker: Key, n: nat, b: Page, c: Page, k: Key)
    requires IsPage(backend, marker, n, b) && IsPage(cache, marker, n, c) && backend.Valid() && cache.Valid()
    requires k in Elements(First(UnionCatalog(backend, cache).Keys, marker, n))
    ensures k in PageCatalog(b, c) && k in UnionCatalog(backend, cache)
    ensures PageCatalog(b, c)[k] == UnionCatalog(backend, cache)[k]
  {
    var u := UnionCatalog(backend, cache).Keys;
    UnionKeys(backend, cache, marker);
    FirstIn(u, marker, n);
    if k in backend.Keys() {
      FirstOfSource(backend.Keys(), u, marker, n, k);
    }
    if k in cache.Keys() {
      FirstOfSource(cache.Keys(), u, marker, n, k);
    }
    assert k in Elements(b.prefixes) + Elements(c.prefixes) <==> k in b.prefixes || k in c.prefixes;
    hide First, MergeAll, Elements, Newest;
    if k !in backend.prefixes && k !in cache.prefixes {
      NewestMerged(backend, cache, b.objects, c.objects, k);
    }
  }

  lemma {:induction false} SameEntries(c: Catalog, d: Catalog, keys: seq<Key>)
    requires forall k :: k in keys ==> k in c && k in d && c[k] == d[k]
    ensures FileInfos(c, keys) == FileInfos(d, keys) && DirKeys(c, keys) == DirKeys(d, keys)
  {
    if keys != [] {
      assert keys[|keys| - 1] in keys;
      SameEntries(c, d, keys[..|keys| - 1]);
    }
  }

  lemma FirstSize(part: set<Key>, keys: set<Key>, marker: Key, n: nat)
    requires Elements(First(part, marker, n)) <= keys
    ensures |Elements(First(part, marker, n))| <= |Sorted(keys)|
  {
    SortedSize(keys);
    hide Sorted, First, Elements;
    SubsetSize(Elements(First(part, marker, n)), keys);
  }

  lemma FirstOfPages(backend: Source, cache: Source, marker: Key, n: nat, b: Page, c: Page)
    requires IsPage(backend, marker, n, b) && IsPage(cache, marker, n, c) && backend.Valid() && cache.Valid()
    ensures Take(Sorted(PageCatalog(b, c).Keys), n) == First(UnionCatalog(backend, cache).Keys, marker, n)
    ensures b.truncated ==> n <= |Sorted(PageCatalog(b, c).Keys)|
    ensures !b.truncated ==> b.nextMarker == ""
  {
    hide *;
    UnionKeys(backend, cache, marker);
    PageKeys(backend, cache, marker, n, b, c);
    BackendFits(backend, marker, n, b, PageCatalog(b, c).Keys);
    FirstDefined(backend.Keys(), marker, n);
    FirstDefined(cache.Keys(), marker, n);
    FirstDefined(UnionCatalog(backend, cache).Keys, marker, n);
    FirstOfUnion(After(backend.Keys(), marker), After(cache.Keys(), marker), n);
  }

  lemma FirstDefined(keys: set<Key>, marker: Key, n: nat)
    ensures First(keys, marker, n) == Take(Sorted(After(keys, marker)), n)
  {
  }

  lemma BackendFits(backend: Source, marker: Key, n: nat, b: Page, keys: set<Key>)
    requires IsPage(backend, marker, n, b) && Elements(First(backend.Keys(), marker, n)) <= keys
    ensures b.truncated ==> n <= |Sorted(keys)|
    ensures !b.truncated ==> b.nextMarker == ""
  {
    FirstSize(backend.Keys(), keys, marker, n);
    hide Sorted, First, Elements;
  }

  lemma SameInfos(backend: Source, cache: Source, marker: Key, n: nat, b: Page, c: Page)
    requires IsPage(backend, marker, n, b) && IsPage(cache, marker, n, c) && backend.Valid() && cache.Valid()
    ensures var f, u, p := First(UnionCatalog(backend, cache).Keys, marker, n), UnionCatalog(backend, cache), PageCatalog(b, c);
            FileInfos(p, f) == FileInfos(u, f) && DirKeys(p, f) == DirKeys(u, f)
  {
    var f := First(UnionCatalog(backend, cache).Keys, marker, n);
    assert forall k :: k in f ==> k in Elements(f);
    hide *;
    forall k | k in f
      ensures k in PageCatalog(b, c) && k in UnionCatalog(backend, cache) && PageCatalog(b, c)[k] == UnionCatalog(backend, cache)[k]
    {
      PageEntry(backend, cache, marker, n, b, c, k);
    }
    SameEntries(PageCatalog(b, c), UnionCatalog(backend, cache), f);
  }

  /** A key after a marker is not the empty string. */
  lemma NoEmptyKey(keys: set<Key>, marker: Key, n: nat)
    ensures "" !in First(keys, marker, n)
  {
    FirstIn(keys, marker, n);
    hide First;
    assert "" !in Elements(First(keys, marker, n));
  }

  lemma TakeSize(s: seq<Key>, n: nat)
    ensures |Take(s, n)| == if n < |s| then n else |s|
  {
  }

  /** A merged page is the page of the union: its first `n` keys after the marker, each with
      its newest object, and truncated exactly when it is full. */
  lemma PageOfUnion(backend: Source, cache: Source, marker: Key, n: nat, b: Page, c: Page)
    requires IsPage(backend, marker, n, b) && IsPage(cache, marker, n, c) && backend.Valid() && cache.Valid() && n > 0
    ensures HandlerPage(b, c, n) == UnionPage(backend, cache, marker, n)
  {
    FirstOfPages(backend, cache, marker, n, b, c);
    SameInfos(backend, cache, marker, n, b, c);
    NoEmptyKey(UnionCatalog(backend, cache).Keys, marker, n);
    TakeSize(Sorted(PageCatalog(b, c).Keys), n);
    hide IsPage, FileInfos, DirKeys, Sorted, UnionCatalog, PageCatalog, First, Elements, Take;
    var f := First(UnionCatalog(backend, cache).Keys, marker, n);
    assert |f| == n ==> f[n - 1] in f;
  }
}
