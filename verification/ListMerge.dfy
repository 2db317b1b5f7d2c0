/** Merging the listings of backend and cache (cmd/bucket-listobjects-handlers.go). */
module ListMerge {
  import opened ListOrder

  /** `content` stands for everything else known about the object. */
  datatype ObjectInfo = ObjectInfo(name: Key, modTime: int, isDir: bool, content: nat)

  type Catalog = map<Key, ObjectInfo>

  /** What a common prefix is filed as. */
  const DIRECTORY := ObjectInfo("", 0, true, 0)

  // ----- The newest object of each name

  function AddOrUpdate(m: Catalog, o: ObjectInfo): Catalog {
    if o.name !in m || o.modTime > m[o.name].modTime then m[o.name := o] else m
  }

  function MergeAll(l: seq<ObjectInfo>): Catalog {
    if l == [] then map[] else AddOrUpdate(MergeAll(l[..|l| - 1]), l[|l| - 1])
  }

  /** The newest of its name in the list, and the first such. */
  ghost predicate IsNewest(l: seq<ObjectInfo>, i: int) {
    && 0 <= i < |l|
    && (forall j :: 0 <= j < i && l[j].name == l[i].name ==> l[j].modTime < l[i].modTime)
    && (forall j :: i < j < |l| && l[j].name == l[i].name ==> l[j].modTime <= l[i].modTime)
  }

  /** The merged map holds, for exactly the names listed, the first newest object; `i` is
      its place in the list. */
  lemma {:induction false} MergeKeepsNewest(l: seq<ObjectInfo>, k: Key) returns (i: int)
    ensures k in MergeAll(l) ==> IsNewest(l, i) && l[i].name == k && MergeAll(l)[k] == l[i]
    ensures k !in MergeAll(l) ==> forall j :: 0 <= j < |l| ==> l[j].name != k
  {
    i := -1;
    if l != [] {
      var n := |l| - 1;
      var before, o := l[..n], l[n];
      var m := MergeAll(before);
      i := MergeKeepsNewest(before, k);
      assert MergeAll(l) == AddOrUpdate(m, o);
      hide MergeAll;
      if o.name == k && (k !in m || o.modTime > m[k].modTime) {
        i := n;
      }
    }
  }

  // ----- Lists of map contents, in whatever order

  ghost predicate Lists(s: seq<ObjectInfo>, m: Catalog) {
    && (forall o :: o in s <==> o.name in m && m[o.name] == o)
    && (forall i, j :: 0 <= i < j < |s| ==> s[i].name != s[j].name)
  }

  lemma MergeNext(l: seq<ObjectInfo>, o: ObjectInfo)
    ensures MergeAll(l + [o]) == AddOrUpdate(MergeAll(l), o)
  {
    assert (l + [o])[..|l|] == l;
  }

  method MergedMap(l1: seq<ObjectInfo>, l2: seq<ObjectInfo>) returns (m: Catalog)
    ensures m == MergeAll(l1 + l2)
  {
    m := map[];
    assert MergeAll(l1[..0]) == map[];
    hide AddOrUpdate, MergeAll;
    for i := 0 to |l1|
      invariant m == MergeAll(l1[..i])
    {
      assert l1[..i + 1] == l1[..i] + [l1[i]];
      MergeNext(l1[..i], l1[i]);
      m := AddOrUpdate(m, l1[i]);
    }
    assert l1[..|l1|] == l1 + l2[..0];
    for i := 0 to |l2|
      invariant m == MergeAll(l1 + l2[..i])
    {
      assert l1 + l2[..i + 1] == l1 + l2[..i] + [l2[i]];
      MergeNext(l1 + l2[..i], l2[i]);
      m := AddOrUpdate(m, l2[i]);
    }
    assert l2[..|l2|] == l2;
  }

  method MergeListObjects(l1: seq<ObjectInfo>, l2: seq<ObjectInfo>) returns (merged: seq<ObjectInfo>)
    ensures Lists(merged, MergeAll(l1 + l2))
  {
    var m := MergedMap(l1, l2);
    hide MergeAll;
    forall k | k in m
      ensures m[k].name == k
    {
      var i := MergeKeepsNewest(l1 + l2, k);
    }
    merged := [];
    var rest := m.Keys;
    while rest != {}
      invariant rest <= m.Keys
      invariant forall o :: o in merged <==> o.name in m.Keys - rest && m[o.name] == o
      invariant forall i, j :: 0 <= i < j < |merged| ==> merged[i].name != merged[j].name
      decreases rest
    {
      var k :| k in rest;
      assert forall i :: 0 <= i < |merged| ==> merged[i] in merged;
      merged := merged + [m[k]];
      rest := rest - {k};
    }
  }

  method MergePrefixes(l1: seq<Key>, l2: seq<Key>) returns (merged: seq<Key>)
    ensures forall p :: p in merged <==> p in l1 || p in l2
    ensures forall i, j :: 0 <= i < j < |merged| ==> merged[i] != merged[j]
  {
    var seen: set<Key> := {};
    for i := 0 to |l1|
      invariant forall p :: p in seen <==> p in l1[..i]
    {
      assert l1[..i + 1] == l1[..i] + [l1[i]];
      seen := seen + {l1[i]};
    }
    assert l1[..|l1|] == l1;
    for i := 0 to |l2|
      invariant forall p :: p in seen <==> p in l1 || p in l2[..i]
    {
      assert l2[..i + 1] == l2[..i] + [l2[i]];
      seen := seen + {l2[i]};
    }
    assert l2[..|l2|] == l2;
    merged := KeysOf(seen);
  }

  /** Ranging over the keys of a map. */
  method KeysOf(keys: set<Key>) returns (s: seq<Key>)
    ensures Elements(s) == keys
    ensures forall k :: k in s <==> k in keys
    ensures forall i, j :: 0 <= i < j < |s| ==> s[i] != s[j]
  {
    s := [];
    var rest := keys;
    while rest != {}
      invariant rest <= keys
      invariant forall k :: k in s <==> k in keys - rest
      invariant forall i, j :: 0 <= i < j < |s| ==> s[i] != s[j]
      decreases rest
    {
      var k :| k in rest;
      assert k !in s;
      s := s + [k];
      rest := rest - {k};
    }
  }

  // ----- Cutting a page

  /** Objects by name (the last of a name counts), prefixes filed over them. */
  function ByName(objects: seq<ObjectInfo>): Catalog {
    if objects == [] then map[] else ByName(objects[..|objects| - 1])[objects[|objects| - 1].name := objects[|objects| - 1]]
  }

  function WithPrefixes(m: Catalog, prefixes: set<Key>): Catalog {
    map k | k in m.Keys + prefixes :: if k in prefixes then DIRECTORY else m[k]
  }

  /** The keys filed as directories, and what is filed under the others. */
  function DirKeys(c: Catalog, keys: seq<Key>): seq<Key> {
    if keys == [] then []
    else
      var k, rest := keys[|keys| - 1], DirKeys(c, keys[..|keys| - 1]);
      if k in c && c[k].isDir then rest + [k] else rest
  }

  function FileInfos(c: Catalog, keys: seq<Key>): seq<ObjectInfo> {
    if keys == [] then []
    else
      var k, rest := keys[|keys| - 1], FileInfos(c, keys[..|keys| - 1]);
      if k in c && !c[k].isDir then rest + [c[k]] else rest
  }

  datatype Limited = Limited(objects: seq<ObjectInfo>, prefixes: seq<Key>, nextMarker: Key)

  /** The first `maxKeys` keys (at least one), and a marker when there are that many. */
  ghost function LimitOf(c: Catalog, maxKeys: int): Limited {
    var n := if maxKeys < 1 then 1 else maxKeys;
    var keys := Sorted(c.Keys);
    var page := Take(keys, n);
    Limited(FileInfos(c, page), DirKeys(c, page), if |keys| < n then "" else page[n - 1])
  }

  lemma PageNext(c: Catalog, keys: seq<Key>, i: nat)
    requires i < |keys| && keys[i] in c
    ensures DirKeys(c, keys[..i + 1]) == if c[keys[i]].isDir then DirKeys(c, keys[..i]) + [keys[i]] else DirKeys(c, keys[..i])
    ensures FileInfos(c, keys[..i + 1]) == if c[keys[i]].isDir then FileInfos(c, keys[..i]) else FileInfos(c, keys[..i]) + [c[keys[i]]]
  {
    assert keys[..i + 1][..i] == keys[..i];
  }

  lemma PrefixNext(m: Catalog, prefixes: seq<Key>, i: nat)
    requires i < |prefixes|
    ensures WithPrefixes(m, Elements(prefixes[..i + 1])) == WithPrefixes(m, Elements(prefixes[..i]))[prefixes[i] := DIRECTORY]
  {
    assert Elements(prefixes[..i + 1]) == Elements(prefixes[..i]) + {prefixes[i]};
  }

  lemma NoPrefixes(m: Catalog)
    ensures WithPrefixes(m, Elements([])) == m
  {
  }

  lemma NameNext(objects: seq<ObjectInfo>, i: nat)
    requires i < |objects|
    ensures ByName(objects[..i + 1]) == ByName(objects[..i])[objects[i].name := objects[i]]
  {
    assert objects[..i + 1][..i] == objects[..i];
  }

  method CatalogOf(objects: seq<ObjectInfo>, prefixes: seq<Key>) returns (c: Catalog)
    ensures c == WithPrefixes(ByName(objects), Elements(prefixes))
  {
    c := map[];
    assert ByName(objects[..0]) == map[];
    hide ByName, WithPrefixes, Elements;
    for i := 0 to |objects|
      invariant c == ByName(objects[..i])
    {
      NameNext(objects, i);
      c := c[objects[i].name := objects[i]];
    }
    assert objects[..|objects|] == objects;
    ghost var base := c;
    NoPrefixes(base);
    assert prefixes[..0] == [];
    for i := 0 to |prefixes|
      invariant c == WithPrefixes(base, Elements(prefixes[..i]))
    {
      PrefixNext(base, prefixes, i);
      c := c[prefixes[i] := DIRECTORY];
    }
    assert prefixes[..|prefixes|] == prefixes;
  }

  lemma SortedKeysIn(c: Catalog, i: nat)
    requires i < |Sorted(c.Keys)|
    ensures Sorted(c.Keys)[i] in c
  {
    hide Sorted;
    assert Sorted(c.Keys)[i] in Elements(Sorted(c.Keys));
  }

  lemma LimitInside(c: Catalog, keys: seq<Key>, maxKeys: int, i: nat)
    requires keys == Sorted(c.Keys) && i < |keys| && maxKeys - 1 <= i && (i > 0 ==> i < maxKeys)
    ensures LimitOf(c, maxKeys) == Limited(FileInfos(c, keys[..i + 1]), DirKeys(c, keys[..i + 1]), keys[i])
  {
    hide Sorted, FileInfos, DirKeys;
    assert Take(keys, i + 1) == keys[..i + 1];
  }

  lemma LimitBeyond(c: Catalog, keys: seq<Key>, maxKeys: int)
    requires keys == Sorted(c.Keys) && (keys != [] ==> |keys| < maxKeys)
    ensures LimitOf(c, maxKeys) == Limited(FileInfos(c, keys[..|keys|]), DirKeys(c, keys[..|keys|]), "")
  {
    hide Sorted, FileInfos, DirKeys;
    assert keys[..|keys|] == keys;
  }

  lemma EmptyPage(c: Catalog, keys: seq<Key>)
    ensures FileInfos(c, keys[..0]) == [] && DirKeys(c, keys[..0]) == []
  {
  }

  /** The loop over the sorted keys, left as soon as the page is full. */
  method CutPage(c: Catalog, keys: seq<Key>, maxKeys: int) returns (r: Limited)
    requires keys == Sorted(c.Keys)
    ensures r == LimitOf(c, maxKeys)
  {
    hide *;
    var objs, pres, i := [], [], 0;
    EmptyPage(c, keys);
    while i < |keys|
      invariant 0 <= i <= |keys| && (i > 0 ==> i < maxKeys)
      invariant objs == FileInfos(c, keys[..i]) && pres == DirKeys(c, keys[..i])
    {
      SortedKeysIn(c, i);
      PageNext(c, keys, i);
      var key := keys[i];
      if c[key].isDir {
        pres := pres + [key];
      } else {
        objs := objs + [c[key]];
      }
      if i >= maxKeys - 1 {
        LimitInside(c, keys, maxKeys, i);
        return Limited(objs, pres, key);
      }
      i := i + 1;
    }
    LimitBeyond(c, keys, maxKeys);
    return Limited(objs, pres, "");
  }

  // ----- What the page is

  /** The names of the objects, and the prefixes. */
  ghost function KeysOn(objects: seq<ObjectInfo>, prefixes: seq<Key>): set<Key> {
    (set o | o in objects :: o.name) + Elements(prefixes)
  }

  lemma {:induction false} SplitByKind(u: Catalog, keys: seq<Key>)
    requires forall k :: k in keys ==> k in u && (!u[k].isDir ==> u[k].name == k)
    ensures KeysOn(FileInfos(u, keys), DirKeys(u, keys)) == Elements(keys)
    ensures |FileInfos(u, keys)| + |DirKeys(u, keys)| == |keys|
  {
    if keys != [] {
      var m := |keys| - 1;
      var k, front := keys[m], keys[..m];
      SplitByKind(u, front);
      assert k in keys && Elements(keys) == Elements(front) + {k};
      AddPrefix(FileInfos(u, front), DirKeys(u, front), k);
      AddObject(FileInfos(u, front), DirKeys(u, front), u[k]);
      PageNext(u, keys, m);
      assert keys[..m + 1] == keys;
      hide Elements, KeysOn, FileInfos, DirKeys;
    }
  }

  lemma AddPrefix(objects: seq<ObjectInfo>, prefixes: seq<Key>, k: Key)
    ensures KeysOn(objects, prefixes + [k]) == KeysOn(objects, prefixes) + {k}
  {
    assert Elements(prefixes + [k]) == Elements(prefixes) + {k};
  }

  lemma AddObject(objects: seq<ObjectInfo>, prefixes: seq<Key>, o: ObjectInfo)
    ensures KeysOn(objects + [o], prefixes) == KeysOn(objects, prefixes) + {o.name}
  {
    forall k
      ensures k in KeysOn(objects + [o], prefixes) <==> k in KeysOn(objects, prefixes) + {o.name}
    {
      if k == o.name {
        assert o in objects + [o];
      }
      if k in KeysOn(objects, prefixes) && k !in prefixes {
        var p :| p in objects && p.name == k;
        assert p in objects + [o];
      }
    }
  }

  /** The first page of a listing, in terms of its input: so many keys, at least one, that
      come before all the others in character order; a key that is a prefix, or whose object
      is a directory, among the prefixes, and the object itself under any other; and the last
      key as the marker when the page is full. */
  ghost predicate IsFirstPage(objects: seq<ObjectInfo>, prefixes: seq<Key>, maxKeys: int, r: Limited) {
    var all, page, n := KeysOn(objects, prefixes), KeysOn(r.objects, r.prefixes), if maxKeys < 1 then 1 else maxKeys;
    && |r.objects| + |r.prefixes| == |page|
    && AreFirst(all, page, n)
    && IsMarker(all, page, n, r.nextMarker)
    && InOrderByKind(r)
    && AreOfKind(objects, prefixes, r)
  }

  ghost predicate AreFirst(all: set<Key>, page: set<Key>, n: nat) {
    && page <= all
    && |page| == (if |all| < n then |all| else n)
    && forall p, k :: p in page && k in all - page ==> ComesBefore(p, k)
  }

  ghost predicate IsMarker(all: set<Key>, page: set<Key>, n: nat, marker: Key) {
    if |all| < n then marker == ""
    else marker in page && forall p :: p in page && p != marker ==> ComesBefore(p, marker)
  }

  ghost predicate InOrderByKind(r: Limited) {
    && (forall i, j :: 0 <= i < j < |r.objects| ==> ComesBefore(r.objects[i].name, r.objects[j].name))
    && (forall i, j :: 0 <= i < j < |r.prefixes| ==> ComesBefore(r.prefixes[i], r.prefixes[j]))
  }

  ghost predicate AreOfKind(objects: seq<ObjectInfo>, prefixes: seq<Key>, r: Limited) {
    && (forall o :: o in r.objects ==> o in objects && o.name !in prefixes && !o.isDir)
    && (forall k :: k in r.prefixes ==> k in prefixes || exists o :: o in objects && o.name == k && o.isDir)
  }

  lemma {:induction false} ByNameEntries(objects: seq<ObjectInfo>)
    ensures forall k :: k in ByName(objects) ==> ByName(objects)[k] in objects && ByName(objects)[k].name == k
    ensures forall o :: o in objects ==> o.name in ByName(objects)
  {
    if objects != [] {
      var n := |objects| - 1;
      ByNameEntries(objects[..n]);
      assert objects == objects[..n] + [objects[n]];
    }
  }

  lemma CatalogEntries(objects: seq<ObjectInfo>, prefixes: seq<Key>)
    ensures var c := WithPrefixes(ByName(objects), Elements(prefixes));
            && c.Keys == KeysOn(objects, prefixes)
            && forall k :: k in c ==> if k in prefixes then c[k].isDir else c[k] in objects && c[k].name == k
  {
    ByNameEntries(objects);
    hide ByName;
    var c := WithPrefixes(ByName(objects), Elements(prefixes));
    forall k
      ensures k in c <==> k in KeysOn(objects, prefixes)
    {
    }
  }

  lemma {:induction false} FilesInOrder(c: Catalog, keys: seq<Key>)
    requires Ascending(keys) && forall k :: k in keys ==> k in c && (!c[k].isDir ==> c[k].name == k)
    ensures forall i, j :: 0 <= i < j < |FileInfos(c, keys)| ==> ComesBefore(FileInfos(c, keys)[i].name, FileInfos(c, keys)[j].name)
    ensures forall o :: o in FileInfos(c, keys) ==> o.name in keys && c[o.name] == o && !o.isDir
  {
    if keys != [] {
      var m := |keys| - 1;
      var k, front := keys[m], keys[..m];
      assert keys == front + [k];
      LastComesAfter(front, k);
      FilesInOrder(c, front);
      PageNext(c, keys, m);
      assert keys[..m + 1] == keys;
      var files := FileInfos(c, front);
      hide FileInfos, DirKeys, Less, ComesBefore;
      assert forall i :: 0 <= i < |files| ==> files[i] in files && files[i].name in front;
    }
  }

  lemma {:induction false} DirsInOrder(c: Catalog, keys: seq<Key>)
    requires Ascending(keys) && forall k :: k in keys ==> k in c
    ensures forall i, j :: 0 <= i < j < |DirKeys(c, keys)| ==> ComesBefore(DirKeys(c, keys)[i], DirKeys(c, keys)[j])
    ensures forall k :: k in DirKeys(c, keys) ==> k in keys && c[k].isDir
  {
    if keys != [] {
      var m := |keys| - 1;
      var k, front := keys[m], keys[..m];
      assert keys == front + [k];
      LastComesAfter(front, k);
      DirsInOrder(c, front);
      PageNext(c, keys, m);
      assert keys[..m + 1] == keys;
      var dirs := DirKeys(c, front);
      hide FileInfos, DirKeys, Less, ComesBefore;
      assert forall i :: 0 <= i < |dirs| ==> dirs[i] in dirs;
    }
  }

  lemma LastComesAfter(front: seq<Key>, last: Key)
    requires Ascending(front + [last])
    ensures Ascending(front) && forall k :: k in front ==> ComesBefore(k, last)
  {
    var keys := front + [last];
    InOrder(keys);
    hide ComesBefore;
    assert forall i :: 0 <= i < |front| ==> keys[i] == front[i];
    assert keys[|front|] == last;
  }

  /** The function the loop is proved against describes exactly such a page. */
  lemma LimitIsFirstPage(objects: seq<ObjectInfo>, prefixes: seq<Key>, maxKeys: int)
    ensures IsFirstPage(objects, prefixes, maxKeys, LimitOf(WithPrefixes(ByName(objects), Elements(prefixes)), maxKeys))
  {
    var c, n := WithPrefixes(ByName(objects), Elements(prefixes)), if maxKeys < 1 then 1 else maxKeys;
    var page, r := Take(Sorted(c.Keys), n), LimitOf(c, maxKeys);
    assert r.objects == FileInfos(c, page) && r.prefixes == DirKeys(c, page);
    assert r.nextMarker == if |Sorted(c.Keys)| < n then "" else page[n - 1];
    hide WithPrefixes, ByName, LimitOf, Sorted, Take, FileInfos, DirKeys, KeysOn, Elements, AreFirst, IsMarker, InOrderByKind, AreOfKind, Less;
    CatalogEntries(objects, prefixes);
    FirstOfCatalog(c, n);
    MarkerOfCatalog(c, n);
    KindsOfPage(objects, prefixes, c, page, r);
  }

  lemma KindsOfPage(objects: seq<ObjectInfo>, prefixes: seq<Key>, c: Catalog, page: seq<Key>, r: Limited)
    requires Ascending(page) && (forall k :: k in page ==> k in c)
    requires forall k :: k in c ==> if k in prefixes then c[k].isDir else c[k] in objects && c[k].name == k
    requires r.objects == FileInfos(c, page) && r.prefixes == DirKeys(c, page)
    ensures KeysOn(r.objects, r.prefixes) == Elements(page) && |r.objects| + |r.prefixes| == |page|
    ensures InOrderByKind(r) && AreOfKind(objects, prefixes, r)
  {
    hide FileInfos, DirKeys, KeysOn, Elements, Less, ComesBefore, Ascending;
    SplitByKind(c, page);
    FilesInOrder(c, page);
    DirsInOrder(c, page);
  }

  lemma FirstOfCatalog(c: Catalog, n: nat)
    ensures var page := Take(Sorted(c.Keys), n);
            && Ascending(page) && (forall k :: k in page ==> k in c) && |Elements(page)| == |page|
            && AreFirst(c.Keys, Elements(page), n)
  {
    hide Sorted, Elements, Less, ComesBefore, Before, Ascending, Take;
    SortedSize(c.Keys);
    TakeIsInitial(c.Keys, n);
    TakeAscends(c.Keys, n);
    var page := Take(Sorted(c.Keys), n);
    BeforeInOrder(Elements(page), c.Keys - Elements(page));
  }

  lemma MarkerOfCatalog(c: Catalog, n: nat)
    requires n > 0
    ensures var s, page := Sorted(c.Keys), Take(Sorted(c.Keys), n);
            (n <= |s| ==> |page| == n) && IsMarker(c.Keys, Elements(page), n, if |s| < n then "" else page[n - 1])
  {
    hide Sorted, Elements, Less, ComesBefore, Ascending, Take;
    SortedSize(c.Keys);
    TakeAscends(c.Keys, n);
    PageMarker(Take(Sorted(c.Keys), n));
  }

  lemma TakeAscends(keys: set<Key>, n: nat)
    ensures Ascending(Take(Sorted(keys), n)) && forall k :: k in Take(Sorted(keys), n) ==> k in keys
    ensures |Take(Sorted(keys), n)| == if n < |Sorted(keys)| then n else |Sorted(keys)|
  {
    hide Sorted, Less;
    assert forall k :: k in Sorted(keys) ==> k in Elements(Sorted(keys));
  }

  lemma BeforeInOrder(a: set<Key>, b: set<Key>)
    requires Before(a, b)
    ensures forall x, y :: x in a && y in b ==> ComesBefore(x, y)
  {
    forall x, y | x in a && y in b
      ensures ComesBefore(x, y)
    {
      LessExact(x, y);
    }
  }

  lemma PageMarker(page: seq<Key>)
    requires Ascending(page)
    ensures page != [] ==>
              var last := page[|page| - 1];
              last in Elements(page) && forall p :: p in Elements(page) && p != last ==> ComesBefore(p, last)
  {
    if page != [] {
      var front, last := page[..|page| - 1], page[|page| - 1];
      assert page == front + [last];
      LastComesAfter(front, last);
      hide ComesBefore, Ascending;
    }
  }

  method LimitMergeObjects(objects: seq<ObjectInfo>, prefixes: seq<Key>, maxKeys: int) returns (r: Limited)
    ensures IsFirstPage(objects, prefixes, maxKeys, r)
    ensures r == LimitOf(WithPrefixes(ByName(objects), Elements(prefixes)), maxKeys)
  {
    var c := CatalogOf(objects, prefixes);
    hide ByName, WithPrefixes, Sorted, LimitOf, IsFirstPage;
    var keys := KeysOf(c.Keys);
    keys := SortStrings(keys);
    r := CutPage(c, keys, maxKeys);
    LimitIsFirstPage(objects, prefixes, maxKeys);
  }
}
