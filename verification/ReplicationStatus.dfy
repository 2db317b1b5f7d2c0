/** Replication statuses (cmd/bucket-replication-utils.go): printed as "arn=status;" per
    target, found again with a regular expression, and summed up into one status, once from
    the list of targets and once from the map that was found. */
module ReplicationStatus {
  import opened Basics
  import opened ReplicationDecision

  type Status = string

  const PENDING: Status := "PENDING"
  const COMPLETED: Status := "COMPLETED"
  const FAILED: Status := "FAILED"
  const REPLICA: Status := "REPLICA"
  const COMPLETE: Status := "COMPLETE"  // of a purged version

  // ----- The regular expression ([^=].*?)=([^,].*?);

  /** A match at the start of `t`: the first group ends at `j`, the second at `k`. A dot
      matches anything but a newline; the two negated classes match a newline too. */
  ghost predicate IsMatch(t: string, j: int, k: int) {
    && 1 <= j && j + 2 <= k < |t|
    && t[0] != '=' && '\n' !in t[1..j] && t[j] == '='
    && t[j + 1] != ',' && '\n' !in t[j + 2..k] && t[k] == ';'
  }

  /** Of two matches at the same place, lazy repetition prefers the one whose first group is
      shorter, then the one whose second group is. */
  ghost predicate IsPreferred(t: string, j: int, k: int) {
    && IsMatch(t, j, k)
    && forall j', k' :: IsMatch(t, j', k') ==> j < j' || (j == j' && k <= k')
  }

  /** Where a lazy run of dots followed by ';' ends, from index `k` on. */
  function NextSemicolon(t: string, k: nat): Option<nat>
    decreases |t| - k
  {
    if k >= |t| then None
    else if t[k] == ';' then Some(k)
    else if t[k] == '\n' then None
    else NextSemicolon(t, k + 1)
  }

  /** The end of the second group, when the '=' at index `j` ends the first one. */
  function SecondGroup(t: string, j: nat): Option<nat> {
    if j + 1 < |t| && t[j] == '=' && t[j + 1] != ',' then NextSemicolon(t, j + 2) else None
  }

  /** Tries the ends of the first group from index `j` on, shortest first. */
  function FirstGroup(t: string, j: nat): Option<(nat, nat)>
    decreases |t| - j
  {
    if j >= |t| then None
    else if SecondGroup(t, j).Some? then Some((j, SecondGroup(t, j).value))
    else if t[j] == '\n' then None
    else FirstGroup(t, j + 1)
  }

  function MatchHere(t: string): Option<(nat, nat)> {
    if t == [] || t[0] == '=' then None else FirstGroup(t, 1)
  }

  lemma {:induction false} NextSemicolonFinds(t: string, k: nat)
    ensures match NextSemicolon(t, k)
            case Some(e) => k <= e < |t| && t[e] == ';' && (forall i :: k <= i < e ==> t[i] != ';' && t[i] != '\n')
            case None => forall e :: k <= e < |t| && t[e] == ';' ==> exists i :: k <= i < e && t[i] == '\n'
    decreases |t| - k
  {
    if k < |t| && t[k] != ';' && t[k] != '\n' {
      NextSemicolonFinds(t, k + 1);
    }
  }

  lemma SecondGroupFinds(t: string, j: nat)
    requires 1 <= j && t != [] && t[0] != '=' && j <= |t| && '\n' !in t[1..j]
    ensures match SecondGroup(t, j)
            case Some(k) => IsMatch(t, j, k) && forall k' :: IsMatch(t, j, k') ==> k <= k'
            case None => forall k' :: !IsMatch(t, j, k')
  {
    if j + 1 < |t| && t[j] == '=' && t[j + 1] != ',' {
      NextSemicolonFinds(t, j + 2);
      match NextSemicolon(t, j + 2)
      case Some(k) =>
        assert '\n' !in t[j + 2..k];
        forall k' | IsMatch(t, j, k')
          ensures k <= k'
        {
          assert t[k'] == ';';
        }
      case None =>
        forall k' | j + 2 <= k' < |t| && t[k'] == ';'
          ensures !IsMatch(t, j, k')
        {
          var i :| j + 2 <= i < k' && t[i] == '\n';
          assert t[j + 2..k'][i - j - 2] == '\n';
        }
    }
  }

  lemma {:induction false} FirstGroupFinds(t: string, j: nat)
    requires 1 <= j && t != [] && t[0] != '=' && j <= |t| && '\n' !in t[1..j]
    requires forall j', k' :: IsMatch(t, j', k') ==> j <= j'
    ensures match FirstGroup(t, j)
            case Some((j', k')) => IsPreferred(t, j', k')
            case None => forall j', k' :: !IsMatch(t, j', k')
    decreases |t| - j
  {
    if j < |t| {
      SecondGroupFinds(t, j);
      if SecondGroup(t, j).None? {
        if t[j] == '\n' {
          forall j' | j < j' <= |t|
            ensures '\n' in t[1..j']
          {
            assert t[1..j'][j - 1] == '\n';
          }
        } else {
          assert t[1..j + 1] == t[1..j] + [t[j]];
          FirstGroupFinds(t, j + 1);
        }
      }
    }
  }

  /** The matcher finds the preferred match at the start of `t`, if there is any. */
  lemma MatchHereIsPreferred(t: string)
    ensures match MatchHere(t)
            case Some((j, k)) => IsPreferred(t, j, k)
            case None => forall j, k :: !IsMatch(t, j, k)
  {
    if t != [] && t[0] != '=' {
      assert t[1..1] == [];
      FirstGroupFinds(t, 1);
    }
  }

  /** FindAllStringSubmatch: matches from left to right, the next one after the last. */
  function FindAll(t: string): seq<(string, string)>
    decreases |t|
  {
    if t == [] then []
    else
      MatchHereIsPreferred(t);
      match MatchHere(t)
      case None => FindAll(t[1..])
      case Some((j, k)) => [(t[..j], t[j + 1..k])] + FindAll(t[k + 1..])
  }

  // ----- Printing and finding again

  datatype TargetInfo = TargetInfo(arn: string, status: Status)

  function PrintEntry(arn: string, status: Status): string {
    arn + ("=" + (status + ";"))
  }

  /** ReplicationStatusInternal: targets without an ARN are left out. */
  function PrintStatuses(targets: seq<TargetInfo>): string {
    if targets == [] then []
    else if targets[0].arn == "" then PrintStatuses(targets[1..])
    else PrintEntry(targets[0].arn, targets[0].status) + PrintStatuses(targets[1..])
  }

  /** What an ARN and a status must be for the expression to find them again. An '=' inside
      the ARN does no harm where no second group could start: before a comma, or where the
      status starts with a newline and nothing ends the group before it. */
  predicate Findable(arn: string, status: Status) {
    && arn != "" && arn[0] != '=' && '\n' !in arn[1..]
    && status != "" && status[0] != ',' && ';' !in status[1..] && '\n' !in status[1..]
    && (forall i :: 1 <= i < |arn| && arn[i] == '=' ==> Harmless(arn, status, i))
  }

  predicate Harmless(arn: string, status: Status, i: nat)
    requires i < |arn| && status != ""
  {
    || (i + 1 < |arn| && arn[i + 1] == ',')
    || (status[0] == '\n' && (i + 2 < |arn| ==> ';' !in arn[i + 2..]))
  }

  lemma EntryIsMatched(arn: string, status: Status, rest: string)
    requires Findable(arn, status)
    ensures IsMatch(PrintEntry(arn, status) + rest, |arn|, |arn| + 1 + |status|)
  {
    var t := PrintEntry(arn, status) + rest;
    var j, k := |arn|, |arn| + 1 + |status|;
    assert t[1..j] == arn[1..];
    assert t[j + 2..k] == status[1..];
    assert t[0] == arn[0];
    assert t[j + 1] == status[0] && t[k] == ';';
  }

  lemma EntryIsFirst(arn: string, status: Status, rest: string, j: int, k: int)
    requires Findable(arn, status) && IsMatch(PrintEntry(arn, status) + rest, j, k)
    ensures |arn| <= j && (j == |arn| ==> |arn| + 1 + |status| <= k)
  {
    var t := PrintEntry(arn, status) + rest;
    var n := |arn|;
    assert t[n] == '=' && t[n + 1] == status[0];
    if j < n {
      assert arn[j] == t[j] == '=' && Harmless(arn, status, j);
      NoSecondGroup(arn, status, t, j, k);
    }
    forall i | n + 2 <= i < n + 1 + |status|
      ensures t[i] != ';'
    {
      assert t[i] == status[1..][i - n - 2];
    }
  }

  lemma NoSecondGroup(arn: string, status: Status, t: string, j: nat, k: nat)
    requires j < |arn| && status != "" && Harmless(arn, status, j)
    requires |arn| + 1 < |t| && t[..|arn|] == arn && t[|arn|] == '=' && t[|arn| + 1] == status[0]
    ensures !IsMatch(t, j, k)
  {
    assert forall i :: 0 <= i < |arn| ==> t[i] == arn[i];
  }

  lemma EntryIsFound(arn: string, status: Status, rest: string)
    requires Findable(arn, status)
    ensures FindAll(PrintEntry(arn, status) + rest) == [(arn, status)] + FindAll(rest)
  {
    var t := PrintEntry(arn, status) + rest;
    var j, k := |arn|, |arn| + 1 + |status|;
    assert t[..j] == arn && t[j + 1..k] == status && t[k + 1..] == rest;
    hide FindAll, MatchHere, IsMatch, Findable, PrintEntry;
    EntryIsMatched(arn, status, rest);
    forall j', k' | IsMatch(t, j', k')
      ensures j < j' || (j == j' && k <= k')
    {
      EntryIsFirst(arn, status, rest, j', k');
    }
    MatchIs(t, j, k);
    FoundFirst(t, j, k);
  }

  lemma MatchIs(t: string, j: nat, k: nat)
    requires IsPreferred(t, j, k)
    ensures MatchHere(t) == Some((j, k))
  {
    MatchHereIsPreferred(t);
    hide MatchHere, IsMatch;
  }

  lemma FoundFirst(t: string, j: nat, k: nat)
    requires MatchHere(t) == Some((j, k)) && t != [] && j + 1 <= k < |t|
    ensures FindAll(t) == [(t[..j], t[j + 1..k])] + FindAll(t[k + 1..])
  {
    hide MatchHere;
  }

  /** An empty status is not only lost: the entry after it is taken for the status. */
  lemma EmptySwallowsNext(arn: string, next: string, status: Status, rest: string)
    requires Findable(arn, ";" + next + "=" + status)
    ensures FindAll(PrintEntry(arn, "") + (PrintEntry(next, status) + rest)) ==
            [(arn, ";" + next + "=" + status)] + FindAll(rest)
  {
    assert PrintEntry(arn, "") + (PrintEntry(next, status) + rest) == PrintEntry(arn, ";" + next + "=" + status) + rest;
    hide Findable, PrintEntry, FindAll;
    EntryIsFound(arn, ";" + next + "=" + status, rest);
  }

  // With plain ARNs every list can be followed through, empty statuses or not

  predicate Plain(t: TargetInfo) {
    && t.arn != "" && '=' !in t.arn && ';' !in t.arn && '\n' !in t.arn
    && ';' !in t.status && '\n' !in t.status && (t.status != "" ==> t.status[0] != ',')
  }

  function Swallowed(t: TargetInfo): Status {
    ";" + t.arn + "=" + t.status
  }

  /** What is found: a target with an empty status takes the next one with it, or is lost. */
  function Found(targets: seq<TargetInfo>): seq<(string, string)> {
    if targets == [] then []
    else if targets[0].status != "" then [(targets[0].arn, targets[0].status)] + Found(targets[1..])
    else if |targets| == 1 then []
    else [(targets[0].arn, Swallowed(targets[1]))] + Found(targets[2..])
  }

  lemma PlainIsFindable(t: TargetInfo, next: TargetInfo)
    requires Plain(t) && Plain(next)
    ensures t.status != "" ==> Findable(t.arn, t.status)
    ensures Findable(t.arn, Swallowed(next))
  {
    var s := Swallowed(next);
    assert s[0] == ';' && s[1..] == next.arn + "=" + next.status;
    assert t.arn[0] in t.arn && forall i :: 0 <= i < |t.arn| ==> t.arn[i] in t.arn;
  }

  lemma {:induction false} NoMatchAnywhere(t: string)
    requires forall i :: 0 <= i < |t| && t[i] == '=' ==> i >= |t| - 2
    ensures FindAll(t) == []
  {
    if t != [] {
      MatchHereIsPreferred(t);
      assert MatchHere(t).None?;
      NoMatchAnywhere(t[1..]);
    }
  }

  lemma LastEmpty(arn: string)
    requires '=' !in arn
    ensures FindAll(PrintEntry(arn, "")) == []
  {
    var t := PrintEntry(arn, "");
    assert |t| == |arn| + 2 && forall i :: 0 <= i < |arn| ==> t[i] == arn[i] && arn[i] in arn;
    hide FindAll;
    NoMatchAnywhere(t);
  }

  /** Exactly this is found of any list of plain targets. */
  lemma {:induction false} FoundExact(targets: seq<TargetInfo>)
    requires forall i :: 0 <= i < |targets| ==> Plain(targets[i])
    ensures FindAll(PrintStatuses(targets)) == Found(targets)
  {
    if targets != [] {
      var t, rest := targets[0], targets[1..];
      assert Plain(t);
      assert PrintStatuses(targets) == PrintEntry(t.arn, t.status) + PrintStatuses(rest);
      if t.status != "" {
        PlainIsFindable(t, t);
        hide Plain, FindAll, PrintEntry;
        FoundExact(rest);
        EntryIsFound(t.arn, t.status, PrintStatuses(rest));
      } else if |targets| == 1 {
        assert PrintStatuses(rest) == [] && PrintEntry(t.arn, "") + [] == PrintEntry(t.arn, "");
        LastEmpty(t.arn);
      } else {
        var next := targets[1];
        PlainIsFindable(t, next);
        assert rest[0] == next && rest[1..] == targets[2..];
        assert PrintStatuses(rest) == PrintEntry(next.arn, next.status) + PrintStatuses(targets[2..]);
        hide Plain, FindAll, PrintEntry, Findable;
        FoundExact(targets[2..]);
        EmptySwallowsNext(t.arn, next.arn, next.status, PrintStatuses(targets[2..]));
      }
    }
  }

  /** The ARNs and statuses that are printed. */
  function Entries(targets: seq<TargetInfo>): seq<(string, string)> {
    if targets == [] then []
    else (if targets[0].arn == "" then [] else [(targets[0].arn, targets[0].status)]) + Entries(targets[1..])
  }

  ghost predicate AllFindable(targets: seq<TargetInfo>) {
    forall i :: 0 <= i < |targets| && targets[i].arn != "" ==> Findable(targets[i].arn, targets[i].status)
  }

  lemma {:induction false} PrintedIsFound(targets: seq<TargetInfo>)
    requires AllFindable(targets)
    ensures FindAll(PrintStatuses(targets)) == Entries(targets)
  {
    if targets != [] {
      PrintedIsFound(targets[1..]);
      var t := targets[0];
      if t.arn != "" {
        EntryIsFound(t.arn, t.status, PrintStatuses(targets[1..]));
      } else {
        assert [] + Entries(targets[1..]) == Entries(targets[1..]);
      }
    }
  }

  /** The map built from the matches; a later one replaces an earlier one. */
  function ToMap(matches: seq<(string, string)>): map<string, Status> {
    if matches == [] then map[]
    else ToMap(matches[..|matches| - 1])[matches[|matches| - 1].0 := matches[|matches| - 1].1]
  }

  function StatusesMap(s: string): map<string, Status> {
    ToMap(FindAll(s))
  }

  method ReplicationStatusesMap(s: string) returns (targets: map<string, Status>)
    ensures targets == StatusesMap(s)
  {
    targets := map[];
    var matches := FindAll(s);
    hide FindAll;
    for i := 0 to |matches|
      invariant targets == ToMap(matches[..i])
    {
      assert matches[..i + 1][..i] == matches[..i];
      targets := targets[matches[i].0 := matches[i].1];
    }
    assert matches[..|matches|] == matches;
  }

  // ----- One status for all targets

  /** The composite of a set of statuses, `complete` being the one all must have. The source
      has this code once for replication and once for purging versions. */
  ghost function CompositeOf(statuses: iset<Status>, complete: Status): Status {
    if statuses == iset{} then ""
    else if FAILED in statuses then FAILED
    else if statuses == iset{complete} then complete
    else PENDING
  }

  ghost function ListStatuses(targets: seq<TargetInfo>): iset<Status> {
    iset i | 0 <= i < |targets| :: targets[i].status
  }

  ghost function MapStatuses(m: map<string, Status>): iset<Status> {
    iset k | k in m :: m[k]
  }

  /** ReplicationStatus and VersionPurgeStatus of a list: an early return on failure, else a count. */
  method ListStatus(targets: seq<TargetInfo>, complete: Status) returns (r: Status)
    ensures complete != "FAILED" ==> (r == "FAILED" <==> exists i :: 0 <= i < |targets| && targets[i].status == "FAILED")
    ensures complete !in {"", "PENDING", "FAILED"} ==>
              (r == complete <==> targets != [] && forall i :: 0 <= i < |targets| ==> targets[i].status == complete)
    ensures complete != "" ==> (r == "" <==> targets == [])
    ensures r in {"", "FAILED", complete, "PENDING"}
    ensures r == CompositeOf(ListStatuses(targets), complete)
  {
    if |targets| == 0 {
      return "";
    }
    assert targets[0].status in ListStatuses(targets);
    var completed := 0;
    for i := 0 to |targets|
      invariant 0 <= completed <= i
      invariant completed == i <==> forall j :: 0 <= j < i ==> targets[j].status == complete
      invariant forall j :: 0 <= j < i ==> targets[j].status != FAILED
    {
      if targets[i].status == FAILED {
        return FAILED;
      } else if targets[i].status == complete {
        completed := completed + 1;
      }
    }
    if completed == |targets| {
      assert ListStatuses(targets) == iset{complete};
      return complete;
    }
    ghost var j :| 0 <= j < |targets| && targets[j].status != complete;
    assert targets[j].status in ListStatuses(targets);
    return PENDING;
  }

  /** getCompositeReplicationStatus and getCompositeVersionPurgeStatus: the same over a map, in whatever order. */
  method MapStatus(m: map<string, Status>, complete: Status) returns (r: Status)
    ensures complete != "FAILED" ==> (r == "FAILED" <==> exists k :: k in m && m[k] == "FAILED")
    ensures complete !in {"", "PENDING", "FAILED"} ==> (r == complete <==> m != map[] && forall k :: k in m ==> m[k] == complete)
    ensures complete != "" ==> (r == "" <==> m == map[])
    ensures r in {"", "FAILED", complete, "PENDING"}
    ensures r == CompositeOf(MapStatuses(m), complete)
  {
    if |m| == 0 {
      assert m.Keys == {};
      assert MapStatuses(m) == iset{};
      return "";
    }
    var completed := 0;
    var done: set<string> := {};
    while done != m.Keys
      invariant done <= m.Keys && 0 <= completed <= |done|
      invariant completed == |done| <==> forall k :: k in done ==> m[k] == complete
      invariant forall k :: k in done ==> m[k] != FAILED
      decreases m.Keys - done
    {
      assert m.Keys - done != {};
      var k :| k in m.Keys - done;
      if m[k] == FAILED {
        assert FAILED in MapStatuses(m);
        return FAILED;
      } else if m[k] == complete {
        completed := completed + 1;
      }
      done := done + {k};
    }
    assert m.Keys != {};
    ghost var k :| k in m;
    assert m[k] in MapStatuses(m);
    if completed == |m| {
      assert MapStatuses(m) == iset{complete};
      return complete;
    }
    k :| k in m && m[k] != complete;
    assert m[k] in MapStatuses(m);
    return PENDING;
  }

  // ----- From the list to the map and back

  ghost predicate DistinctArns(targets: seq<TargetInfo>) {
    && (forall i :: 0 <= i < |targets| ==> targets[i].arn != "")
    && (forall i, j :: 0 <= i < j < |targets| ==> targets[i].arn != targets[j].arn)
  }

  lemma {:induction false} EntriesOfAll(targets: seq<TargetInfo>)
    requires forall i :: 0 <= i < |targets| ==> targets[i].arn != ""
    ensures |Entries(targets)| == |targets|
    ensures forall i :: 0 <= i < |targets| ==> Entries(targets)[i] == (targets[i].arn, targets[i].status)
  {
    if targets != [] {
      EntriesOfAll(targets[1..]);
    }
  }

  lemma {:induction false} ToMapDistinct(matches: seq<(string, string)>)
    requires forall i, j :: 0 <= i < j < |matches| ==> matches[i].0 != matches[j].0
    ensures forall k, v :: k in ToMap(matches) && ToMap(matches)[k] == v <==> (k, v) in matches
  {
    if matches != [] {
      var n := |matches| - 1;
      ToMapDistinct(matches[..n]);
      assert matches == matches[..n] + [matches[n]];
    }
  }

  ghost predicate Recovers(m: map<string, Status>, targets: seq<TargetInfo>) {
    forall a, s :: a in m && m[a] == s <==> TargetInfo(a, s) in targets
  }

  /** For distinct findable targets the expression recovers exactly the map from ARN to
      status, and the composite of that map, in any iteration order, is that of the list. */
  lemma StatusesRoundTrip(targets: seq<TargetInfo>)
    requires AllFindable(targets) && DistinctArns(targets)
    ensures var m := StatusesMap(PrintStatuses(targets));
            Recovers(m, targets) && MapStatuses(m) == ListStatuses(targets)
  {
    PrintedIsFound(targets);
    EntriesOfAll(targets);
    var es := Entries(targets);
    hide FindAll, PrintStatuses, Entries, Findable;
    ToMapDistinct(es);
    var m := ToMap(es);
    hide ToMap;
    forall a, s
      ensures (a, s) in es <==> TargetInfo(a, s) in targets
    {
      if (a, s) in es {
        var i :| 0 <= i < |es| && es[i] == (a, s);
        assert targets[i] == TargetInfo(a, s);
      }
      if TargetInfo(a, s) in targets {
        var i :| 0 <= i < |targets| && targets[i] == TargetInfo(a, s);
        assert es[i] == (a, s);
      }
    }
    forall s
      ensures s in MapStatuses(m) <==> s in ListStatuses(targets)
    {
      if s in MapStatuses(m) {
        var a :| a in m && m[a] == s;
        assert TargetInfo(a, s) in targets;
      }
      if s in ListStatuses(targets) {
        var i :| 0 <= i < |targets| && targets[i].status == s;
        assert targets[i] in targets && targets[i] == TargetInfo(targets[i].arn, s);
      }
    }
  }

  /** Whatever is found is findable, ... */
  lemma {:induction false} FoundIsFindable(t: string)
    ensures forall e :: e in FindAll(t) ==> Findable(e.0, e.1)
    decreases |t|
  {
    if t != [] {
      MatchHereIsPreferred(t);
      match MatchHere(t)
      case None => FoundIsFindable(t[1..]);
      case Some((j, k)) =>
        FoundIsFindable(t[k + 1..]);
        PreferredIsFindable(t, j, k);
        hide IsPreferred, Findable;
    }
  }

  lemma PreferredIsFindable(t: string, j: nat, k: nat)
    requires IsPreferred(t, j, k)
    ensures Findable(t[..j], t[j + 1..k])
  {
    var arn, status := t[..j], t[j + 1..k];
    assert arn[1..] == t[1..j] && status[1..] == t[j + 2..k];
    forall i | j + 2 <= i < k
      ensures t[i] != ';'
    {
      if t[i] == ';' {
        Shorter(t, j, i, k);
      }
    }
    forall i | 1 <= i < |arn| && arn[i] == '='
      ensures Harmless(arn, status, i)
    {
      SkippedIsHarmless(t, i, j, k);
    }
  }

  lemma Shorter(t: string, j: int, i: int, k: int)
    requires IsMatch(t, j, k) && j + 2 <= i < k && t[i] == ';'
    ensures IsMatch(t, j, i)
  {
    assert forall x :: j + 2 <= x < k ==> t[x] == t[j + 2..k][x - j - 2];
  }

  /** An '=' the preferred match passes over could not end the first group. */
  lemma SkippedIsHarmless(t: string, i: nat, j: nat, k: nat)
    requires IsPreferred(t, j, k) && 1 <= i < j && t[i] == '='
    ensures Harmless(t[..j], t[j + 1..k], i)
  {
    assert forall x :: 1 <= x < j ==> t[1..j][x - 1] == t[x];
    assert forall x :: j + 2 <= x < k ==> t[j + 2..k][x - j - 2] == t[x];
    assert forall x :: 1 <= x < k && x != j + 1 ==> t[x] != '\n';
    if t[i + 1] != ',' {
      forall x | i + 2 <= x < j
        ensures t[x] != ';'
      {
        MatchFrom(t, i, x);
      }
      if t[j + 1] != '\n' {
        MatchFrom(t, i, k);
      }
    }
  }

  lemma MatchFrom(t: string, i: nat, k: nat)
    requires 1 <= i && i + 2 <= k < |t| && t[0] != '=' && t[i] == '=' && t[i + 1] != ','
    requires forall x :: 1 <= x < k && x != i && x != i + 1 ==> t[x] != '\n'
    ensures t[k] == ';' ==> IsMatch(t, i, k)
  {
  }

  /** ... so the map from ARN to status is recovered exactly when every target is findable. */
  lemma RecoveryExact(targets: seq<TargetInfo>)
    requires DistinctArns(targets)
    ensures Recovers(StatusesMap(PrintStatuses(targets)), targets) <==> AllFindable(targets)
  {
    var m := StatusesMap(PrintStatuses(targets));
    if AllFindable(targets) {
      StatusesRoundTrip(targets);
    }
    if Recovers(m, targets) {
      FoundIsFindable(PrintStatuses(targets));
      ToMapValues(FindAll(PrintStatuses(targets)));
      hide Findable, FindAll, PrintStatuses, ToMap;
      forall i | 0 <= i < |targets|
        ensures Findable(targets[i].arn, targets[i].status)
      {
        assert targets[i] in targets && targets[i] == TargetInfo(targets[i].arn, targets[i].status);
      }
    }
  }

  /** In particular, among targets whose ARN and status are otherwise findable the map is
      recovered exactly when no status is empty. */
  lemma EmptyStatusIsLost(targets: seq<TargetInfo>)
    requires DistinctArns(targets)
    requires forall i :: 0 <= i < |targets| && targets[i].status != "" ==> Findable(targets[i].arn, targets[i].status)
    ensures Recovers(StatusesMap(PrintStatuses(targets)), targets) <==>
            forall i :: 0 <= i < |targets| ==> targets[i].status != ""
  {
    RecoveryExact(targets);
    assert forall arn, status :: Findable(arn, status) ==> status != "";
    hide Findable, StatusesMap, PrintStatuses, Recovers;
  }

  lemma {:induction false} ToMapValues(matches: seq<(string, string)>)
    ensures forall k :: k in ToMap(matches) ==> (k, ToMap(matches)[k]) in matches
  {
    if matches != [] {
      var n := |matches| - 1;
      ToMapValues(matches[..n]);
      assert matches == matches[..n] + [matches[n]];
    }
  }
}
